/** What a request to create an item may hold, and the item that is stored for it. */
module ItemRequests {
  import opened Wrappers
  import opened Distinct

  type Id = nat

  datatype FieldKind = StringField | FileField | TotpField

  datatype Field = Field(name: string, kind: FieldKind, concealed: bool, data: string)

  datatype FileInput = FileInput(name: string, id: Id)

  datatype ItemRequest = ItemRequest(fields: seq<Field>, files: seq<FileInput>)

  datatype StoredField = StoredField(kind: FieldKind, concealed: bool, data: string)

  /** Fields and files are stored by name; the order of the request is not kept. */
  datatype StoredItem = StoredItem(fields: map<string, StoredField>, files: map<string, Id>)

  /** Whether a text is a well-formed otpauth URL. */
  type TotpCheck = string -> bool

  const MAX_ITEM_NAME_CHARS: nat := 255

  predicate ValidItemName(name: string) {
    name != "" && |name| <= MAX_ITEM_NAME_CHARS
  }

  function FieldNames(fields: seq<Field>): (names: seq<string>)
    ensures |names| == |fields| && forall i :: 0 <= i < |fields| ==> names[i] == fields[i].name
  {
    seq(|fields|, i requires 0 <= i < |fields| => fields[i].name)
  }

  function InputNames(files: seq<FileInput>): (names: seq<string>)
    ensures |names| == |files| && forall i :: 0 <= i < |files| ==> names[i] == files[i].name
  {
    seq(|files|, i requires 0 <= i < |files| => files[i].name)
  }

  function IdsOf(files: seq<FileInput>): (ids: seq<Id>)
    ensures |ids| == |files| && forall i :: 0 <= i < |files| ==> ids[i] == files[i].id
  {
    seq(|files|, i requires 0 <= i < |files| => files[i].id)
  }

  // ----- what is stored -----

  /** A one-time password is concealed whatever the request says. */
  function Normalized(field: Field): StoredField {
    StoredField(field.kind, field.kind.TotpField? || field.concealed, field.data)
  }

  function FieldsByName(fields: seq<Field>): map<string, StoredField> {
    if fields == [] then map[]
    else
      var last := fields[|fields| - 1];
      FieldsByName(fields[..|fields| - 1])[last.name := Normalized(last)]
  }

  function FilesByName(files: seq<FileInput>): map<string, Id> {
    if files == [] then map[]
    else
      var last := files[|files| - 1];
      FilesByName(files[..|files| - 1])[last.name := last.id]
  }

  function Stored(request: ItemRequest): StoredItem {
    StoredItem(FieldsByName(request.fields), FilesByName(request.files))
  }

  /** With distinct names nothing is lost: every field is stored, under its name, and nothing else. */
  lemma {:induction false} FieldsByNameMeans(fields: seq<Field>)
    ensures FieldsByName(fields).Keys == Elements(FieldNames(fields))
    ensures NoDuplicates(FieldNames(fields)) ==>
      forall i :: 0 <= i < |fields| ==>
        fields[i].name in FieldsByName(fields) && FieldsByName(fields)[fields[i].name] == Normalized(fields[i])
  {
    if fields != [] {
      var front, last := fields[..|fields| - 1], fields[|fields| - 1];
      FieldsByNameMeans(front);
      var names := FieldNames(fields);
      assert FieldNames(front) == names[..|front|] && names == FieldNames(front) + [last.name];
      DuplicatesOfPrefix(names, |front|);
      hide Normalized, Elements;
      ElementsSnoc(FieldNames(front), last.name);
      if NoDuplicates(names) {
        forall i | 0 <= i < |fields|
          ensures fields[i].name in FieldsByName(fields) && FieldsByName(fields)[fields[i].name] == Normalized(fields[i])
        {
          if i < |front| {
            assert fields[i] == front[i] && names[i] != names[|front|];
          }
        }
      }
    }
  }

  lemma {:induction false} FilesByNameMeans(files: seq<FileInput>)
    ensures FilesByName(files).Keys == Elements(InputNames(files))
    ensures NoDuplicates(InputNames(files)) ==>
      forall i :: 0 <= i < |files| ==>
        files[i].name in FilesByName(files) && FilesByName(files)[files[i].name] == files[i].id
  {
    if files != [] {
      var front, last := files[..|files| - 1], files[|files| - 1];
      FilesByNameMeans(front);
      var names := InputNames(files);
      assert InputNames(front) == names[..|front|] && names == InputNames(front) + [last.name];
      DuplicatesOfPrefix(names, |front|);
      hide Elements;
      ElementsSnoc(InputNames(front), last.name);
      if NoDuplicates(names) {
        forall i | 0 <= i < |files|
          ensures files[i].name in FilesByName(files) && FilesByName(files)[files[i].name] == files[i].id
        {
          if i < |front| {
            assert files[i] == front[i] && names[i] != names[|front|];
          }
        }
      }
    }
  }

  // ----- what is admitted -----

  predicate FieldFits(totp: TotpCheck, field: Field) {
    field.name != "" && (field.kind.TotpField? ==> totp(field.data))
  }

  ghost predicate FieldsAdmitted(totp: TotpCheck, fields: seq<Field>) {
    NoDuplicates(FieldNames(fields)) && forall i :: 0 <= i < |fields| ==> FieldFits(totp, fields[i])
  }

  ghost predicate FilesAdmitted(files: seq<FileInput>) {
    && NoDuplicates(InputNames(files)) && NoDuplicates(IdsOf(files))
    && forall i :: 0 <= i < |files| ==> files[i].name != ""
  }

  ghost predicate Admitted(totp: TotpCheck, request: ItemRequest) {
    && FieldsAdmitted(totp, request.fields) && FilesAdmitted(request.files)
    && Elements(FieldNames(request.fields)) !! Elements(InputNames(request.files))
  }

  /** The first `i` fields are admitted; their names have been met and their contents merged. */
  ghost predicate FieldsMerged(
    totp: TotpCheck, fields: seq<Field>, i: int, names: set<string>, stored: map<string, StoredField>)
  {
    && 0 <= i <= |fields| && FieldsAdmitted(totp, fields[..i])
    && names == Elements(FieldNames(fields[..i])) && stored == FieldsByName(fields[..i])
  }

  lemma NoFieldsMerged(totp: TotpCheck, fields: seq<Field>)
    ensures FieldsMerged(totp, fields, 0, {}, map[])
  {
  }

  lemma {:induction false} AllFieldsMerged(totp: TotpCheck, fields: seq<Field>, names: set<string>, stored: map<string, StoredField>)
    requires FieldsMerged(totp, fields, |fields|, names, stored)
    ensures FieldsAdmitted(totp, fields) && stored == FieldsByName(fields)
  {
    assert fields[..|fields|] == fields;
  }

  lemma FieldsMergedStep(
    totp: TotpCheck, fields: seq<Field>, i: nat, names: set<string>, stored: map<string, StoredField>)
    requires i < |fields| && FieldsMerged(totp, fields, i, names, stored)
    ensures
      if FieldFits(totp, fields[i]) && fields[i].name !in names then
        FieldsMerged(totp, fields, i + 1, names + {fields[i].name}, stored[fields[i].name := Normalized(fields[i])])
      else !FieldsAdmitted(totp, fields)
  {
    var all := FieldNames(fields);
    assert all[..i] == FieldNames(fields[..i]) && all[..i + 1] == FieldNames(fields[..i + 1]);
    ElementsGrow(all, i);
    assert fields[..i + 1][..i] == fields[..i];
    assert forall k :: 0 <= k < i ==> fields[..i][k] == fields[k] == fields[..i + 1][k];
    hide FieldFits, Normalized, NoDuplicates, Elements;
  }

  /** The first failing check decides; all of them refuse the request alike. */
  method MergeFields(totp: TotpCheck, fields: seq<Field>) returns (ok: bool, stored: map<string, StoredField>)
    ensures ok == FieldsAdmitted(totp, fields)
    ensures ok ==> stored == FieldsByName(fields)
  {
    hide FieldsMerged, FieldsAdmitted, FieldsByName, Normalized;
    var names: set<string> := {};
    stored := map[];
    NoFieldsMerged(totp, fields);
    for i := 0 to |fields|
      invariant FieldsMerged(totp, fields, i, names, stored)
    {
      FieldsMergedStep(totp, fields, i, names, stored);
      var field := fields[i];
      if field.name == "" || field.name in names {
        return false, stored;
      }
      names := names + {field.name};
      if field.kind.TotpField? && !totp(field.data) {
        return false, stored;
      }
      stored := stored[field.name := Normalized(field)];
    }
    AllFieldsMerged(totp, fields, names, stored);
    ok := true;
  }

  ghost predicate FilesValidated(
    files: seq<FileInput>, i: int, names: set<string>, seen: set<Id>, validated: map<string, Id>)
  {
    && 0 <= i <= |files| && FilesAdmitted(files[..i])
    && names == Elements(InputNames(files[..i])) && seen == Elements(IdsOf(files[..i]))
    && validated == FilesByName(files[..i])
  }

  lemma NoFilesValidated(files: seq<FileInput>)
    ensures FilesValidated(files, 0, {}, {}, map[])
  {
  }

  lemma {:induction false} AllFilesValidated(files: seq<FileInput>, names: set<string>, seen: set<Id>, validated: map<string, Id>)
    requires FilesValidated(files, |files|, names, seen, validated)
    ensures FilesAdmitted(files) && validated == FilesByName(files)
  {
    assert files[..|files|] == files;
  }

  lemma FilesValidatedStep(
    files: seq<FileInput>, i: nat, names: set<string>, seen: set<Id>, validated: map<string, Id>)
    requires i < |files| && FilesValidated(files, i, names, seen, validated)
    ensures
      if files[i].name != "" && files[i].name !in names && files[i].id !in seen then
        FilesValidated(
          files, i + 1, names + {files[i].name}, seen + {files[i].id}, validated[files[i].name := files[i].id])
      else !FilesAdmitted(files)
  {
    var all, ids := InputNames(files), IdsOf(files);
    assert all[..i] == InputNames(files[..i]) && all[..i + 1] == InputNames(files[..i + 1]);
    assert ids[..i] == IdsOf(files[..i]) && ids[..i + 1] == IdsOf(files[..i + 1]);
    ElementsGrow(all, i);
    ElementsGrow(ids, i);
    assert files[..i + 1][..i] == files[..i];
    assert forall k :: 0 <= k < i ==> files[..i][k] == files[k] == files[..i + 1][k];
    hide NoDuplicates, Elements;
  }

  method ValidateFileInputs(files: seq<FileInput>) returns (ok: bool, validated: map<string, Id>)
    ensures ok == FilesAdmitted(files)
    ensures ok ==> validated == FilesByName(files)
  {
    hide FilesValidated, FilesAdmitted, FilesByName;
    var names: set<string>, seen: set<Id> := {}, {};
    validated := map[];
    NoFilesValidated(files);
    for i := 0 to |files|
      invariant FilesValidated(files, i, names, seen, validated)
    {
      FilesValidatedStep(files, i, names, seen, validated);
      var input := files[i];
      if input.name == "" || input.name in names || input.id in seen {
        return false, validated;
      }
      names := names + {input.name};
      seen := seen + {input.id};
      validated := validated[input.name := input.id];
    }
    AllFilesValidated(files, names, seen, validated);
    ok := true;
  }

  /** Merges the fields, validates the files and keeps their names apart. */
  method MergeRequest(totp: TotpCheck, request: ItemRequest) returns (r: Option<StoredItem>)
    ensures r == if Admitted(totp, request) then Some(Stored(request)) else None
  {
    hide FieldsAdmitted, FilesAdmitted, FieldsByName, FilesByName, Elements, FieldNames, InputNames;
    FieldsByNameMeans(request.fields);
    FilesByNameMeans(request.files);
    var ok, fields := MergeFields(totp, request.fields);
    if !ok {
      return None;
    }
    var files;
    ok, files := ValidateFileInputs(request.files);
    if !ok || !(fields.Keys !! files.Keys) {
      return None;
    }
    r := Some(StoredItem(fields, files));
  }

  // ----- single checks, spelled out -----

  lemma ItemNameMeans(name: string)
    ensures ValidItemName(name) <==> 1 <= |name| <= 255
  {
  }

  lemma NormalizedMeans(name: string, kind: FieldKind, concealed: bool, data: string)
    ensures
      var stored := Normalized(Field(name, kind, concealed, data));
      && stored.kind == kind && stored.data == data
      && (stored.concealed <==> concealed || kind == TotpField)
  {
  }

  /** A field needs a name, and only a one-time password is looked into. */
  lemma FieldFitsMeans(totp: TotpCheck, name: string, kind: FieldKind, concealed: bool, data: string)
    ensures FieldFits(totp, Field(name, kind, concealed, data)) <==> |name| > 0 && (kind == TotpField ==> totp(data))
  {
  }
}
