/** Paths to directories and items as the command line writes them. */
module ItemPaths {
  import opened Wrappers
  import opened Text

  datatype ItemPath = ItemPath(dir: string, item: string)

  datatype Source = Directory(dir: string) | Item(path: ItemPath)

  const PassPrefix := "pass://"
  const OpPrefix := "op://"

  function StripPrefix(input: string): string {
    if StartsWith(input, PassPrefix) then input[|PassPrefix|..]
    else if StartsWith(input, OpPrefix) then input[|OpPrefix|..]
    else input
  }

  /** `None` is the error for an empty component or a number of components other than one and two. */
  function ParseDirOrItem(input: string): Option<Source> {
    var parts := Split(StripPrefix(input), '/');
    if "" in parts then None
    else if |parts| == 1 then Some(Directory(parts[0]))
    else if |parts| == 2 then Some(Item(ItemPath(parts[0], parts[1])))
    else None
  }

  predicate IsComponent(s: string) {
    s != "" && '/' !in s
  }

  /** Exactly the texts that name a directory or an item parse, and as that directory or item. */
  lemma ParseIffPath(input: string, source: Source)
    ensures ParseDirOrItem(input) == Some(source) <==>
      match source
      case Directory(dir) => IsComponent(dir) && StripPrefix(input) == dir
      case Item(path) =>
        IsComponent(path.dir) && IsComponent(path.item) && StripPrefix(input) == path.dir + "/" + path.item
  {
    var parts := match source
      case Directory(dir) => [dir]
      case Item(path) => [path.dir, path.item];
    SplitIffJoin(StripPrefix(input), '/', parts);
    assert source.Item? ==> parts[1..] == [source.path.item];
  }

  /** One of the two prefixes may stand before a path, and only once. */
  lemma PrefixMeans(path: string)
    ensures StripPrefix("pass://" + path) == path && StripPrefix("op://" + path) == path
    ensures !StartsWith(path, "pass://") && !StartsWith(path, "op://") ==> StripPrefix(path) == path
  {
    assert ("pass://" + path)[..7] == "pass://" && ("pass://" + path)[7..] == path;
    assert ("op://" + path)[..5] == "op://" && ("op://" + path)[5..] == path;
    assert ("op://" + path)[0] == 'o' && PassPrefix[0] == 'p';
  }
}
