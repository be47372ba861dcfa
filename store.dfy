/** The file store of DataAccess/TextFileBasedStore.cs: one file per record,
    named after the record's Id, in a single DataStore directory. The
    directory is a map from file name to content (text, one character per
    byte) plus whether the directory exists yet. */
module Store {
  import opened Wrappers
  import opened DotNetText
  import opened Codec

  /** A record type: its property kinds in declaration order and the position of its `Id` property. */
  datatype Schema = Schema(kinds: seq<FieldKind>, id: nat)

  /** The extension of every record file. */
  const Extension: string := ".usr"

  /** The names `Directory.EnumerateFiles(dir, "*.usr")` lists. */
  predicate IsRecordFileName(name: string) {
    |name| >= |Extension| && name[|name| - |Extension|..] == Extension
  }

  /** The record files of a directory. */
  function RecordFiles(files: map<string, string>): set<string> {
    set name | name in files && IsRecordFileName(name)
  }

  /** Any text followed by the extension is a record file name. */
  lemma RecordFileName(stem: string)
    ensures IsRecordFileName(stem + Extension)
  {
    assert (stem + Extension)[|stem|..] == Extension;
  }

  /** The text `$"{item.Id}"` interpolates: the value's ToString(), or nothing for null. */
  function IdText(id: Option<Value>): string {
    if id.None? then [] else FieldText(id)
  }

  /** GetFileLocation: the file a record is stored in, `<Id>.usr`. */
  function GetFileLocation(schema: Schema, item: Record): (name: string)
    requires schema.id < |item|
    ensures |name| >= |Extension|
  {
    IdText(item[schema.id]) + Extension
  }

  /** The file GetByIdAsync looks in for a Guid key. */
  function IdLocation(id: Guid): (name: string)
    ensures |name| == 36 + |Extension|
  {
    GuidToString(id) + Extension
  }

  /** A record whose Id property holds Guid `id` is stored where GetByIdAsync(id) looks. */
  lemma LocationOfGuidId(schema: Schema, item: Record, id: Guid)
    requires schema.id < |item| && item[schema.id] == Some(GuidValue(id))
    ensures GetFileLocation(schema, item) == IdLocation(id)
  {
  }

  /** Distinct Guid keys name distinct files. */
  lemma IdLocationInjective(a: Guid, b: Guid)
    requires a != b
    ensures IdLocation(a) != IdLocation(b)
  {
    if IdLocation(a) == IdLocation(b) {
      assert GuidToString(a) == IdLocation(a)[..36];
      assert GuidToString(b) == IdLocation(b)[..36];
      GuidToStringInjective(a, b);
    }
  }

  /** What File.OpenWrite followed by a write of `written` leaves: the new
      text from offset 0, and whatever of the old content lies beyond it. */
  function Overlay(existing: string, written: string): (r: string)
    ensures |r| == if |existing| > |written| then |existing| else |written|
    ensures r[..|written|] == written
    ensures forall i :: |written| <= i < |r| ==> r[i] == existing[i]
  {
    written + (if |existing| > |written| then existing[|written|..] else [])
  }

  /** Writing text over content no longer than it replaces the content outright. */
  lemma OverlayReplacesShorter(existing: string, written: string)
    requires |existing| <= |written|
    ensures Overlay(existing, written) == written
  {
  }

  /** The files `names` of the directory listing `dir` decode, in order, to `results`. */
  ghost predicate DecodedAs(kinds: seq<FieldKind>, dir: map<string, string>, names: seq<string>, results: seq<Record>)
    decreases |names|
  {
    && |names| == |results|
    && (names != [] ==>
         var n := |names| - 1;
         && DecodedAs(kinds, dir, names[..n], results[..n])
         && names[n] in dir
         && Decode(kinds, dir[names[n]]) == Success(results[n]))
  }

  lemma {:induction false} DecodedAsPointwise(kinds: seq<FieldKind>, dir: map<string, string>, names: seq<string>, results: seq<Record>)
    requires DecodedAs(kinds, dir, names, results)
    ensures |names| == |results|
    ensures forall i :: 0 <= i < |names| ==> names[i] in dir && Decode(kinds, dir[names[i]]) == Success(results[i])
    decreases |names|
  {
    if names != [] {
      var n := |names| - 1;
      DecodedAsPointwise(kinds, dir, names[..n], results[..n]);
      forall i | 0 <= i < |names|
        ensures names[i] in dir && Decode(kinds, dir[names[i]]) == Success(results[i])
      {
        if i < n {
          assert names[..n][i] == names[i] && results[..n][i] == results[i];
        }
      }
    }
  }

  /** A sequence without repetitions has as many distinct elements as entries. */
  lemma {:induction false} DistinctCardinality(s: seq<string>)
    requires forall i, j :: 0 <= i < j < |s| ==> s[i] != s[j]
    ensures |(set x | x in s)| == |s|
  {
    if s != [] {
      var n := |s| - 1;
      DistinctCardinality(s[..n]);
      assert (set x | x in s) == (set x | x in s[..n]) + {s[n]};
    }
  }

  /** The records of a listing: `order` enumerates the record files of `dir`,
      each exactly once, and `results[i]` is what `order[i]` decodes to. */
  ghost predicate ListedAs(kinds: seq<FieldKind>, dir: map<string, string>, order: seq<string>, results: seq<Record>) {
    && |results| == |order|
    && (forall i, j :: 0 <= i < j < |order| ==> order[i] != order[j])
    && (forall name :: name in order <==> name in RecordFiles(dir))
    && (forall i :: 0 <= i < |order| ==> order[i] in dir && Decode(kinds, dir[order[i]]) == Success(results[i]))
  }

  /** A listing has exactly one record per record file. */
  lemma ListingCount(kinds: seq<FieldKind>, dir: map<string, string>, order: seq<string>, results: seq<Record>)
    requires ListedAs(kinds, dir, order, results)
    ensures |results| == |order| == |RecordFiles(dir)|
  {
    DistinctCardinality(order);
    assert (set name | name in order) == RecordFiles(dir);
  }

  /** The enumeration loop of GetAllAsync over a directory listing `dir`:
      read every record file, in some order, stopping at the first failure. */
  method ReadAll(kinds: seq<FieldKind>, dir: map<string, string>) returns (r: Result<seq<Record>, Exception>, ghost order: seq<string>)
    ensures r.Success? <==>
      forall name :: name in RecordFiles(dir) ==> Decode(kinds, dir[name]).Success?
    ensures r.Failure? ==>
      exists name :: name in RecordFiles(dir) && Decode(kinds, dir[name]) == Failure(r.error)
    ensures r.Success? ==> ListedAs(kinds, dir, order, r.value)
  {
    var remaining := RecordFiles(dir);
    ghost var all := remaining;
    var results: seq<Record> := [];
    order := [];
    ghost var seen: set<string> := {};
    while remaining != {}
      invariant remaining !! seen && remaining + seen == all
      invariant |results| == |order|
      invariant forall name :: name in order <==> name in seen
      invariant forall i, j :: 0 <= i < j < |order| ==> order[i] != order[j]
      invariant DecodedAs(kinds, dir, order, results)
      decreases remaining
    {
      var name :| name in remaining;
      var record := ReadFileContent(kinds, dir[name]);
      if record.Failure? {
        return Failure(record.error), order;
      }
      assert (order + [name])[..|order|] == order && (results + [record.value])[..|results|] == results;
      results := results + [record.value];
      order := order + [name];
      seen := seen + {name};
      remaining := remaining - {name};
    }
    DecodedAsPointwise(kinds, dir, order, results);
    forall name | name in all
      ensures Decode(kinds, dir[name]).Success?
    {
      var i :| 0 <= i < |order| && order[i] == name;
    }
    r := Success(results);
  }

  class TextFileBasedStore {
    /** The DataStore directory: file name to content. */
    var files: map<string, string>
    /** Whether the DataStore directory exists. */
    var dirExists: bool

    /** A directory that does not exist holds no files. */
    ghost predicate Valid()
      reads this
    {
      !dirExists ==> files == map[]
    }

    /** A store over the directory as it stands when the store is created. */
    constructor (existing: map<string, string>, present: bool)
      requires present || existing == map[]
      ensures Valid() && files == existing && dirExists == present
    {
      files := existing;
      dirExists := present;
    }

    /** EnsureDirectoryPresent: create the directory if it is missing; the files are untouched. */
    method EnsureDirectoryPresent()
      requires Valid()
      modifies this
      ensures Valid() && dirExists && files == old(files)
    {
      if !dirExists {
        dirExists := true;
      }
    }

    /** CreateAsync: write the encoding to `<Id>.usr`, replacing any earlier file of that name. */
    method Create(schema: Schema, item: Record)
      requires Valid() && schema.id < |item|
      modifies this
      ensures Valid() && dirExists
      ensures files == old(files)[GetFileLocation(schema, item) := Encode(item)]
    {
      EnsureDirectoryPresent();
      var location := GetFileLocation(schema, item);
      var content := GetFileContent(item);
      files := files[location := content];
    }

    /** DeleteAsync: remove `<Id>.usr` if it is there; nothing else changes. */
    method Delete(schema: Schema, item: Record)
      requires Valid() && schema.id < |item|
      modifies this
      ensures Valid() && dirExists
      ensures files == old(files) - {GetFileLocation(schema, item)}
    {
      EnsureDirectoryPresent();
      var location := GetFileLocation(schema, item);
      if location in files {
        files := files - {location};
      }
    }

    /** GetByIdAsync: null when `<id>.usr` is missing, else the decoded record or the exception decoding throws. */
    method GetById(schema: Schema, id: Guid) returns (r: Result<Option<Record>, Exception>)
      requires Valid()
      modifies this
      ensures Valid() && dirExists && files == old(files)
      ensures r == Success(None) <==> IdLocation(id) !in files
      ensures IdLocation(id) in files ==>
        var decoded := Decode(schema.kinds, files[IdLocation(id)]);
        && (r.Success? <==> decoded.Success?)
        && (r.Success? ==> r.value == Some(decoded.value))
        && (r.Failure? ==> r.error == decoded.error)
    {
      EnsureDirectoryPresent();
      var location := IdLocation(id);
      if location !in files {
        return Success(None);
      }
      var text := files[location];
      var record := ReadFileContent(schema.kinds, text);
      if record.Failure? {
        return Failure(record.error);
      }
      r := Success(Some(record.value));
    }

    /** GetAllAsync: one decoded record per record file, in enumeration order
        (`order`, ghost); the first file that fails to decode fails the call. */
    method GetAll(schema: Schema) returns (r: Result<seq<Record>, Exception>, ghost order: seq<string>)
      requires Valid()
      modifies this
      ensures Valid() && dirExists && files == old(files)
      ensures r.Success? <==>
        forall name :: name in RecordFiles(files) ==> Decode(schema.kinds, files[name]).Success?
      ensures r.Failure? ==>
        exists name :: name in RecordFiles(files) && Decode(schema.kinds, files[name]) == Failure(r.error)
      ensures r.Success? ==> ListedAs(schema.kinds, files, order, r.value)
    {
      EnsureDirectoryPresent();
      r, order := ReadAll(schema.kinds, files);
    }

    /** UpdateAsync as written: create the file when it is missing, then write
        the encoding through File.OpenWrite, which does not truncate. */
    method Update(schema: Schema, item: Record)
      requires Valid() && schema.id < |item|
      modifies this
      ensures Valid() && dirExists
      ensures var location := GetFileLocation(schema, item);
        files == old(files)[location :=
          if location in old(files) then Overlay(old(files)[location], Encode(item)) else Encode(item)]
    {
      EnsureDirectoryPresent();
      var location := GetFileLocation(schema, item);
      ghost var created := location !in files;
      if location !in files {
        Create(schema, item);
      }
      var text := GetFileContent(item);
      if created {
        OverlayReplacesShorter(files[location], text);
      }
      files := files[location := Overlay(files[location], text)];
    }

    /** UpdateAsync as evidently intended: the file's content is replaced by the encoding. */
    method UpdateTruncating(schema: Schema, item: Record)
      requires Valid() && schema.id < |item|
      modifies this
      ensures Valid() && dirExists
      ensures files == old(files)[GetFileLocation(schema, item) := Encode(item)]
    {
      EnsureDirectoryPresent();
      var location := GetFileLocation(schema, item);
      if location !in files {
        Create(schema, item);
      }
      var text := GetFileContent(item);
      files := files[location := text];
    }
  }

  // ---------------------------------------------------------------------------
  // What the file operations promise together

  /** The last character of the encoding of a storable, non-empty record's
      last property is not a tab: it ends that property's (non-empty) text. */
  lemma EncodeEndsInText(kinds: seq<FieldKind>, rec: Record)
    requires StorableRecord(kinds, rec) && rec != []
    ensures |Encode(rec)| >= 2 && Encode(rec)[|Encode(rec)| - 2] != Tab
  {
    var n := |rec| - 1;
    var ts := Texts(rec);
    var t := ts[n];
    assert Storable(rec[n]);
    assert t != [] && NoTab(t) by {
      match rec[n]
      case None =>
      case Some(_) =>
    }
    assert Encode(rec) == Join(ts[..n]) + (t + [Tab]);
  }

  /** An update that shortens a storable record's encoding by two characters
      or more leaves a file that no longer decodes: the stale tail of the old
      content adds a segment, and reading throws InvalidOperationException. */
  lemma ShrinkingUpdateIsUnreadable(kinds: seq<FieldKind>, older: Record, newer: Record)
    requires StorableRecord(kinds, older) && StorableRecord(kinds, newer)
    requires |Encode(older)| >= |Encode(newer)| + 2
    ensures Decode(kinds, Overlay(Encode(older), Encode(newer))) == Failure(InvalidOperationException)
  {
    var e, o := Encode(newer), Encode(older);
    var tail := o[|e|..];
    assert Overlay(o, e) == e + tail;
    assert older != [];
    EncodeEndsInText(kinds, older);
    SplitAppend(e, tail, Tab);
    SplitFindsContent(tail, Tab, |o| - 2 - |e|);
    SplitStorable(kinds, newer);
  }

  /** An update that shortens the encoding by at most one character still
      reads back: the one stale character is the old content's final tab. */
  lemma UpdateShorterByOneReadsBack(kinds: seq<FieldKind>, older: Record, newer: Record)
    requires StorableRecord(kinds, older) && StorableRecord(kinds, newer)
    requires |Encode(older)| <= |Encode(newer)| + 1
    ensures Decode(kinds, Overlay(Encode(older), Encode(newer))) == Success(ReadBack(newer))
  {
    var e, o := Encode(newer), Encode(older);
    DecodeEncode(kinds, newer);
    if |o| <= |e| {
      OverlayReplacesShorter(o, e);
    } else {
      assert older != [];
      assert Overlay(o, e) == e + [Tab];
      SplitAppend(e, [Tab], Tab);
      assert SplitRemoveEmpty([Tab], Tab) == [];
      assert SplitRemoveEmpty(e + [Tab], Tab) == SplitRemoveEmpty(e, Tab);
    }
  }

  /** The file map after CreateAsync of each item in turn. */
  function CreateAll(schema: Schema, files: map<string, string>, items: seq<Record>): map<string, string>
    requires forall k :: 0 <= k < |items| ==> schema.id < |items[k]|
  {
    if items == [] then files
    else
      var n := |items| - 1;
      CreateAll(schema, files, items[..n])[GetFileLocation(schema, items[n]) := Encode(items[n])]
  }

  /** Writing a record file adds its name to the record files. */
  lemma RecordFilesUpdate(files: map<string, string>, name: string, content: string)
    requires IsRecordFileName(name)
    ensures RecordFiles(files[name := content]) == RecordFiles(files) + {name}
  {
  }

  /** The file names the items are stored under. */
  function Locations(schema: Schema, items: seq<Record>): set<string>
    requires forall k :: 0 <= k < |items| ==> schema.id < |items[k]|
  {
    if items == [] then {}
    else
      var n := |items| - 1;
      Locations(schema, items[..n]) + {GetFileLocation(schema, items[n])}
  }

  /** After creating each item in turn, the record files are the ones already
      there plus one file per item's location, and no others. */
  lemma {:induction false} CreateAllRecordFiles(schema: Schema, files: map<string, string>, items: seq<Record>)
    requires forall k :: 0 <= k < |items| ==> schema.id < |items[k]|
    ensures RecordFiles(CreateAll(schema, files, items)) == RecordFiles(files) + Locations(schema, items)
    decreases |items|
  {
    if items != [] {
      var n := |items| - 1;
      CreateAllRecordFiles(schema, files, items[..n]);
      RecordFileName(IdText(items[n][schema.id]));
      RecordFilesUpdate(CreateAll(schema, files, items[..n]), GetFileLocation(schema, items[n]), Encode(items[n]));
    }
  }

  /** The items are stored under pairwise distinct names. */
  predicate DistinctLocations(schema: Schema, items: seq<Record>)
    requires forall k :: 0 <= k < |items| ==> schema.id < |items[k]|
  {
    forall k, l :: 0 <= k < l < |items| ==> GetFileLocation(schema, items[k]) != GetFileLocation(schema, items[l])
  }

  lemma DistinctLocationsPrefix(schema: Schema, items: seq<Record>, n: nat)
    requires forall k :: 0 <= k < |items| ==> schema.id < |items[k]|
    requires DistinctLocations(schema, items) && n <= |items|
    ensures DistinctLocations(schema, items[..n])
  {
    forall i, j | 0 <= i < j < n
      ensures GetFileLocation(schema, items[..n][i]) != GetFileLocation(schema, items[..n][j])
    {
      assert items[..n][i] == items[i] && items[..n][j] == items[j];
    }
  }

  /** Locations holds the location of each item and nothing else. */
  lemma {:induction false} LocationsMembers(schema: Schema, items: seq<Record>, name: string)
    requires forall k :: 0 <= k < |items| ==> schema.id < |items[k]|
    ensures name in Locations(schema, items) <==>
      exists k :: 0 <= k < |items| && GetFileLocation(schema, items[k]) == name
    decreases |items|
  {
    if items != [] {
      var n := |items| - 1;
      LocationsMembers(schema, items[..n], name);
      if name in Locations(schema, items[..n]) {
        var k :| 0 <= k < n && GetFileLocation(schema, items[..n][k]) == name;
        assert items[..n][k] == items[k];
      }
      if k :| 0 <= k < n && GetFileLocation(schema, items[k]) == name {
        assert items[..n][k] == items[k];
      }
    }
  }

  /** Items under pairwise distinct names have as many locations as items. */
  lemma {:induction false} LocationsCount(schema: Schema, items: seq<Record>)
    requires forall k :: 0 <= k < |items| ==> schema.id < |items[k]|
    requires DistinctLocations(schema, items)
    ensures |Locations(schema, items)| == |items|
    decreases |items|
  {
    if items != [] {
      var n := |items| - 1;
      var last := GetFileLocation(schema, items[n]);
      DistinctLocationsPrefix(schema, items, n);
      LocationsCount(schema, items[..n]);
      LocationsMembers(schema, items[..n], last);
    }
  }

  /** After creating items under pairwise distinct names, each item's file
      holds that item's encoding. */
  lemma {:induction false} CreateAllContents(schema: Schema, files: map<string, string>, items: seq<Record>, k: nat)
    requires forall k :: 0 <= k < |items| ==> schema.id < |items[k]|
    requires DistinctLocations(schema, items)
    requires k < |items|
    ensures GetFileLocation(schema, items[k]) in CreateAll(schema, files, items)
    ensures CreateAll(schema, files, items)[GetFileLocation(schema, items[k])] == Encode(items[k])
    decreases |items|
  {
    var n := |items| - 1;
    var init := items[..n];
    var before := CreateAll(schema, files, init);
    var here, last := GetFileLocation(schema, items[k]), GetFileLocation(schema, items[n]);
    assert CreateAll(schema, files, items) == before[last := Encode(items[n])];
    if k < n {
      DistinctLocationsPrefix(schema, items, n);
      CreateAllContents(schema, files, init, k);
      assert init[k] == items[k];
      assert here != last;
    }
  }
}
