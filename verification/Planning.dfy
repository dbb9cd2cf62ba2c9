/** Expanding the sources of a share, copy or move command into items and destinations. */
module Planning {
  import opened Wrappers
  import opened Distinct
  import opened ItemPaths

  datatype Error =
    | InvalidPath(input: string)
    | NeedsRecursive
    | NoMatch(source: string)
    | ListingFailed
    | NotExactlyOne
    | NotADirectory

  /**
   * The agent's answer when the source at this position asks for the items of a directory, all
   * of them or those matching a glob. Answers may differ from one question to the next.
   */
  type Listing = (nat, string, Option<string>) -> Option<seq<string>>

  datatype Options = Options(recursive: bool, globoff: bool)

  // ----- what the sources stand for -----

  function InDir(dir: string, names: seq<string>): (paths: seq<ItemPath>)
    ensures |paths| == |names|
    ensures forall i :: 0 <= i < |names| ==> paths[i] == ItemPath(dir, names[i])
  {
    seq(|names|, i requires 0 <= i < |names| => ItemPath(dir, names[i]))
  }

  /** The items that the source at position `k` stands for. */
  function Expansion(k: nat, source: string, options: Options, list: Listing): Result<seq<ItemPath>, Error> {
    match ParseDirOrItem(source)
    case None => Err(InvalidPath(source))
    case Some(Directory(dir)) =>
      if options.recursive then Listed(source, dir, list(k, dir, None)) else Err(NeedsRecursive)
    case Some(Item(path)) =>
      if options.globoff then Ok([path]) else Listed(source, path.dir, list(k, path.dir, Some(path.item)))
  }

  function Listed(source: string, dir: string, names: Option<seq<string>>): Result<seq<ItemPath>, Error> {
    if names.None? then Err(ListingFailed)
    else if names.value == [] then Err(NoMatch(source))
    else Ok(InDir(dir, names.value))
  }

  /** The expansions of the first `n` sources one after the other; the first error ends them. */
  function Expansions(sources: seq<string>, n: nat, options: Options, list: Listing): (r: Result<seq<ItemPath>, Error>)
    requires n <= |sources|
    ensures r.Ok? && n > 0 ==> r.value != []
  {
    if n == 0 then Ok([])
    else
      var before := Expansions(sources, n - 1, options, list);
      var last := Expansion(n - 1, sources[n - 1], options, list);
      if before.Err? then before
      else if last.Err? then last
      else Ok(before.value + last.value)
  }

  lemma {:induction false} FirstErrorStays(sources: seq<string>, n: nat, m: nat, options: Options, list: Listing)
    requires n <= m <= |sources| && Expansions(sources, n, options, list).Err?
    ensures Expansions(sources, m, options, list) == Expansions(sources, n, options, list)
    decreases m
  {
    if n < m {
      FirstErrorStays(sources, n, m - 1, options, list);
    }
  }

  // ----- the loops -----

  /** `expanded` holds the first occurrences of all that was pushed, `seen` the same as a set. */
  ghost predicate Collected(expanded: seq<ItemPath>, seen: set<ItemPath>, pushed: seq<ItemPath>) {
    expanded == FirstOccurrences(pushed) && forall p :: p in seen <==> p in pushed
  }

  method PushUnique(expanded: seq<ItemPath>, seen: set<ItemPath>, dir: string, item: string, ghost pushed: seq<ItemPath>)
    returns (expanded': seq<ItemPath>, seen': set<ItemPath>)
    requires Collected(expanded, seen, pushed)
    ensures Collected(expanded', seen', pushed + [ItemPath(dir, item)])
  {
    var path := ItemPath(dir, item);
    FirstOccurrencesStep(pushed, path);
    expanded', seen' := expanded, seen;
    if path !in seen {
      seen' := seen + {path};
      expanded' := expanded + [path];
    }
  }

  method PushListed(
    expanded: seq<ItemPath>, seen: set<ItemPath>, source: string, dir: string, names: Option<seq<string>>,
    ghost pushed: seq<ItemPath>
  ) returns (expanded': seq<ItemPath>, seen': set<ItemPath>, error: Option<Error>)
    requires Collected(expanded, seen, pushed)
    ensures match Listed(source, dir, names)
      case Err(e) => error == Some(e)
      case Ok(paths) => error == None && Collected(expanded', seen', pushed + paths)
  {
    expanded', seen', error := expanded, seen, None;
    if names.None? {
      return expanded, seen, Some(ListingFailed);
    }
    if names.value == [] {
      return expanded, seen, Some(NoMatch(source));
    }
    ghost var paths := InDir(dir, names.value);
    hide Collected, InDir;
    assert pushed + paths[..0] == pushed;
    for i := 0 to |names.value|
      invariant Collected(expanded', seen', pushed + paths[..i])
    {
      expanded', seen' := PushUnique(expanded', seen', dir, names.value[i], pushed + paths[..i]);
      assert pushed + paths[..i] + [paths[i]] == pushed + paths[..i + 1];
    }
    assert paths[..|names.value|] == paths;
  }

  /** The first occurrences of the concatenated expansions, or the error of the first source that has one. */
  function Collection(sources: seq<string>, options: Options, list: Listing): (r: Result<seq<ItemPath>, Error>) {
    match Expansions(sources, |sources|, options, list)
    case Err(e) => Err(e)
    case Ok(paths) => Ok(FirstOccurrences(paths))
  }

  method ExpandSources(sources: seq<string>, options: Options, list: Listing)
    returns (r: Result<seq<ItemPath>, Error>, expandedDirectory: bool)
    ensures r == Collection(sources, options, list)
    ensures r.Ok? ==> (expandedDirectory <==> exists k :: 0 <= k < |sources| && NamesDirectory(sources[k]))
  {
    var expanded, seen := [], {};
    expandedDirectory := false;
    ghost var pushed := [];
    hide Collected, Expansion, Expansions, ParseDirOrItem, NamesDirectory;
    NothingCollected();
    ExpansionsUnfold(sources, 0, options, list);
    for i := 0 to |sources|
      invariant Expansions(sources, i, options, list) == Ok(pushed)
      invariant Collected(expanded, seen, pushed)
      invariant expandedDirectory <==> exists k :: 0 <= k < i && NamesDirectory(sources[k])
    {
      var source := sources[i];
      ExpansionsUnfold(sources, i + 1, options, list);
      ExpansionUnfold(i, source, options, list);
      if Expansion(i, source, options, list).Err? {
        FirstErrorStays(sources, i + 1, |sources|, options, list);
      }
      ghost var ours := Expansion(i, source, options, list);
      var error: Option<Error> := None;
      match ParseDirOrItem(source) {
        case None =>
          return Err(InvalidPath(source)), expandedDirectory;
        case Some(Directory(dir)) =>
          if !options.recursive {
            return Err(NeedsRecursive), expandedDirectory;
          }
          expandedDirectory := true;
          expanded, seen, error := PushListed(expanded, seen, source, dir, list(i, dir, None), pushed);
        case Some(Item(path)) =>
          if options.globoff {
            expanded, seen := PushUnique(expanded, seen, path.dir, path.item, pushed);
          } else {
            expanded, seen, error := PushListed(expanded, seen, source, path.dir, list(i, path.dir, Some(path.item)), pushed);
          }
      }
      if error.Some? {
        return Err(error.value), expandedDirectory;
      }
      pushed := pushed + ours.value;
    }
    CollectedIs(expanded, seen, pushed);
    return Ok(expanded), expandedDirectory;
  }

  predicate NamesDirectory(source: string) {
    ParseDirOrItem(source).Some? && ParseDirOrItem(source).value.Directory?
  }

  lemma NothingCollected()
    ensures Collected([], {}, [])
  {
  }

  lemma CollectedIs(expanded: seq<ItemPath>, seen: set<ItemPath>, pushed: seq<ItemPath>)
    requires Collected(expanded, seen, pushed)
    ensures expanded == FirstOccurrences(pushed)
  {
  }

  lemma ExpansionsUnfold(sources: seq<string>, n: nat, options: Options, list: Listing)
    requires n <= |sources|
    ensures n == 0 ==> Expansions(sources, n, options, list) == Ok([])
    ensures n > 0 ==>
      var before := Expansions(sources, n - 1, options, list);
      var last := Expansion(n - 1, sources[n - 1], options, list);
      Expansions(sources, n, options, list) ==
        if before.Err? then before else if last.Err? then last else Ok(before.value + last.value)
  {
  }

  lemma ExpansionUnfold(k: nat, source: string, options: Options, list: Listing)
    ensures Expansion(k, source, options, list) ==
      match ParseDirOrItem(source)
      case None => Err(InvalidPath(source))
      case Some(Directory(dir)) =>
        if options.recursive then Listed(source, dir, list(k, dir, None)) else Err(NeedsRecursive)
      case Some(Item(path)) =>
        if options.globoff then Ok([path]) else Listed(source, path.dir, list(k, path.dir, Some(path.item)))
    ensures NamesDirectory(source) <==> ParseDirOrItem(source).Some? && ParseDirOrItem(source).value.Directory?
  {
  }

  // ----- share -----

  /**
   * On success the items are the first occurrences of the concatenated expansions in order, and
   * a single output file gets exactly one item.
   */
  method PlanShareItems(sources: seq<string>, options: Options, singleOutput: bool, list: Listing)
    returns (r: Result<seq<ItemPath>, Error>)
    ensures match Expansions(sources, |sources|, options, list)
      case Err(e) => r == Err(e)
      case Ok(paths) =>
        if singleOutput && |FirstOccurrences(paths)| != 1 then r == Err(NotExactlyOne)
        else r.Ok? && IsFirstOccurrences(r.value, paths) && r.value == FirstOccurrences(paths)
    ensures r.Ok? && singleOutput ==> |r.value| == 1
    ensures r.Ok? ==> NoDuplicates(r.value)
  {
    var expandedDirectory;
    r, expandedDirectory := ExpandSources(sources, options, list);
    if r.Ok? {
      FirstOccurrencesMeans(Expansions(sources, |sources|, options, list).value);
      if singleOutput && |r.value| != 1 {
        return Err(NotExactlyOne);
      }
    }
  }

  // ----- copy and move -----

  datatype Transfer = Transfer(source: ItemPath, dest: ItemPath)

  function ParseDir(input: string): Result<string, Error> {
    match ParseDirOrItem(input)
    case None => Err(InvalidPath(input))
    case Some(Directory(dir)) => Ok(dir)
    case Some(Item(_)) => Err(NotADirectory)
  }

  /** What a plan has to be for the collected sources. */
  ghost predicate IsPlan(plan: seq<Transfer>, sources: seq<ItemPath>, intoDirectory: bool, destination: string) {
    && |plan| == |sources|
    && (forall i :: 0 <= i < |plan| ==> plan[i].source == sources[i])
    && match ParseDirOrItem(destination)
       case None => false
       case Some(Directory(dir)) => forall i :: 0 <= i < |plan| ==> plan[i].dest == ItemPath(dir, sources[i].item)
       case Some(Item(path)) => |plan| == 1 && !intoDirectory && plan[0].dest == path
  }

  /** The command line demands at least one source. */
  method PlanTransfers(sources: seq<string>, destination: string, options: Options, list: Listing)
    returns (r: Result<seq<Transfer>, Error>)
    requires sources != []
    ensures
      var directory := exists k :: 0 <= k < |sources| && NamesDirectory(sources[k]);
      match Collection(sources, options, list)
      case Err(e) => r == Err(e)
      case Ok(items) =>
        && (r.Ok? ==> IsPlan(r.value, items, directory, destination))
        && (r.Err? ==> match ParseDirOrItem(destination)
                       case None => r == Err(InvalidPath(destination))
                       case Some(Directory(_)) => false
                       case Some(Item(_)) => r == Err(NotADirectory) && (|items| > 1 || directory))
  {
    var collected, expandedDirectory := ExpandSources(sources, options, list);
    if collected.Err? {
      return Err(collected.error);
    }
    var items := collected.value;
    if |items| > 1 || expandedDirectory {
      var dir := ParseDir(destination);
      if dir.Err? {
        return Err(dir.error);
      }
      return Ok(seq(|items|, i requires 0 <= i < |items| => Transfer(items[i], ItemPath(dir.value, items[i].item))));
    }
    var source := items[0];
    match ParseDirOrItem(destination) {
      case None => return Err(InvalidPath(destination));
      case Some(Directory(dir)) => return Ok([Transfer(source, ItemPath(dir, source.item))]);
      case Some(Item(path)) => return Ok([Transfer(source, path)]);
    }
  }

  /**
   * Nothing keeps two sources from getting one destination: destinations differ if and only if
   * no two sources from different directories have the same item name.
   */
  lemma DestinationsDifferIff(plan: seq<Transfer>, sources: seq<ItemPath>, intoDirectory: bool, destination: string)
    requires NoDuplicates(sources) && IsPlan(plan, sources, intoDirectory, destination)
    ensures (forall i, j :: 0 <= i < j < |plan| ==> plan[i].dest != plan[j].dest) <==>
            (forall i, j :: 0 <= i < j < |plan| ==> sources[i].item != sources[j].item)
  {
  }
}
