/** The positional text codec of the store (GetFileContent, ReadFileContent
    and Parse in DataAccess/TextFileBasedStore.cs). Reflection over a record
    type is replaced by an explicit schema: the declared kinds of its
    properties, in declaration order. */
module Codec {
  import opened Wrappers
  import opened DotNetText

  /** The declared type of a property. `OtherKind` is any type Parse has no conversion for. */
  datatype FieldKind = StrKind | GuidKind | IntKind | OtherKind(typeName: string)

  /** A non-null property value; `Other` is a value of an unsupported type, seen through its ToString(). */
  datatype Value =
    | Str(s: string)
    | GuidValue(g: Guid)
    | Int(i: Int32)
    | Other(typeName: string, text: string)

  /** A record: one entry per property in declaration order; `None` is null. */
  type Record = seq<Option<Value>>

  function KindOf(v: Value): FieldKind {
    match v
    case Str(_) => StrKind
    case GuidValue(_) => GuidKind
    case Int(_) => IntKind
    case Other(name, _) => OtherKind(name)
  }

  /** Guid and int are value types: a property of either kind never holds null. */
  predicate IsValueType(k: FieldKind) {
    k == GuidKind || k == IntKind
  }

  /** What a property holds when its setter is handed null, which is also what a
      freshly constructed instance holds: null for a reference type, the
      zero value for a value type. */
  function NullOf(k: FieldKind): (f: Option<Value>)
    ensures f.None? <==> !IsValueType(k)
  {
    match k
    case GuidKind => Some(GuidValue(EmptyGuid))
    case IntKind => Some(Int(0))
    case _ => None
  }

  predicate FieldConforms(k: FieldKind, f: Option<Value>) {
    match f
    case None => !IsValueType(k)
    case Some(v) => KindOf(v) == k
  }

  /** `rec` is an instance of the record type whose properties have `kinds`. */
  predicate Conforms(kinds: seq<FieldKind>, rec: Record) {
    |rec| == |kinds| && forall i :: 0 <= i < |rec| ==> FieldConforms(kinds[i], rec[i])
  }

  // ---------------------------------------------------------------------------
  // Encoding (GetFileContent)

  /** The sentinel written for a null value. */
  const NullText: string := "NULL"

  /** `value?.ToString() ?? "NULL"`. */
  function FieldText(f: Option<Value>): string {
    match f
    case None => NullText
    case Some(Str(s)) => s
    case Some(GuidValue(g)) => GuidToString(g)
    case Some(Int(i)) => Int32ToString(i)
    case Some(Other(_, text)) => text
  }

  /** The property texts, in declaration order. */
  function Texts(rec: Record): (ts: seq<string>)
    ensures |ts| == |rec|
  {
    seq(|rec|, i requires 0 <= i < |rec| => FieldText(rec[i]))
  }

  /** Each text followed by a tab, in order. */
  function Join(ts: seq<string>): (s: string)
    ensures |s| >= |ts|
    ensures ts != [] ==> s[|s| - 1] == Tab
  {
    if ts == [] then [] else Join(ts[..|ts| - 1]) + (ts[|ts| - 1] + [Tab])
  }

  /** The file content of a record: each property's text followed by a tab. */
  function Encode(rec: Record): (content: string)
    ensures |content| >= |rec|
    ensures rec != [] ==> content[|content| - 1] == Tab
  {
    Join(Texts(rec))
  }

  /** GetFileContent: the StringBuilder loop over the properties. */
  method GetFileContent(item: Record) returns (content: string)
    ensures content == Encode(item)
  {
    content := [];
    var i := 0;
    while i < |item|
      invariant 0 <= i <= |item|
      invariant content == Join(Texts(item[..i]))
    {
      ghost var ts := Texts(item[..i + 1]);
      assert ts[..i] == Texts(item[..i]) && ts[i] == FieldText(item[i]);
      content := content + (FieldText(item[i]) + [Tab]);
      i := i + 1;
    }
    assert item[..i] == item;
  }

  /** Read front to back, the joined text is the first text, a tab, and the rest joined. */
  lemma {:induction false} JoinCons(ts: seq<string>)
    requires ts != []
    ensures Join(ts) == ts[0] + [Tab] + Join(ts[1..])
    decreases |ts|
  {
    var n := |ts| - 1;
    var init, line := ts[..n], ts[n] + [Tab];
    if n == 0 {
      assert ts[1..] == [] && Join(ts) == [] + line;
    } else {
      var tail := ts[1..];
      var rest := Join(init[1..]);
      assert Join(tail) == rest + line by {
        assert tail[..|tail| - 1] == init[1..];
      }
      JoinCons(init);
      assert init[0] == ts[0];
      AppendAssoc(ts[0] + [Tab], rest, line);
    }
  }

  lemma AppendAssoc(a: string, b: string, c: string)
    ensures (a + b) + c == a + (b + c)
  {
  }

  /** Joining five texts, written out. */
  lemma JoinOfFive(ts: seq<string>)
    requires |ts| == 5
    ensures Join(ts) == ts[0] + [Tab] + ts[1] + [Tab] + ts[2] + [Tab] + ts[3] + [Tab] + ts[4] + [Tab]
  {
    assert ts[..0] == [];
    JoinStep(ts, 0);
    assert [] + ts[0] == ts[0];
    JoinStep(ts, 1);
    JoinStep(ts, 2);
    JoinStep(ts, 3);
    JoinStep(ts, 4);
    assert ts[..5] == ts;
  }

  lemma JoinStep(ts: seq<string>, n: nat)
    requires n < |ts|
    ensures Join(ts[..n + 1]) == Join(ts[..n]) + ts[n] + [Tab]
  {
    assert ts[..n + 1][..n] == ts[..n];
    AppendAssoc(Join(ts[..n]), ts[n], [Tab]);
  }

  /** Shortening some texts, and lengthening none, shortens the joined text by at least as much. */
  lemma {:induction false} JoinShorter(ts: seq<string>, us: seq<string>)
    requires |ts| == |us|
    requires forall i :: 0 <= i < |ts| ==> |us[i]| <= |ts[i]|
    ensures |Join(us)| <= |Join(ts)|
    ensures forall j :: 0 <= j < |ts| ==> |Join(us)| + (|ts[j]| - |us[j]|) <= |Join(ts)|
    decreases |ts|
  {
    if ts != [] {
      var n := |ts| - 1;
      JoinShorter(ts[..n], us[..n]);
      assert |Join(ts)| == |Join(ts[..n])| + |ts[n]| + 1;
      assert |Join(us)| == |Join(us[..n])| + |us[n]| + 1;
      forall j | 0 <= j < n
        ensures |Join(us)| + (|ts[j]| - |us[j]|) <= |Join(ts)|
      {
        assert ts[..n][j] == ts[j] && us[..n][j] == us[j];
      }
    }
  }

  /** The content of a record is its first property's text, a tab, and the content of the rest. */
  lemma EncodeCons(rec: Record)
    requires rec != []
    ensures Encode(rec) == FieldText(rec[0]) + [Tab] + Encode(rec[1..])
  {
    JoinCons(Texts(rec));
    assert Texts(rec)[1..] == Texts(rec[1..]);
  }

  function TabCount(s: string): nat {
    if s == [] then 0 else TabCount(s[..|s| - 1]) + (if s[|s| - 1] == Tab then 1 else 0)
  }

  lemma {:induction false} TabCountAppend(a: string, b: string)
    ensures TabCount(a + b) == TabCount(a) + TabCount(b)
    decreases |b|
  {
    if b == [] {
      assert a + b == a;
    } else {
      assert (a + b)[..|a + b| - 1] == a + b[..|b| - 1];
      TabCountAppend(a, b[..|b| - 1]);
    }
  }

  lemma {:induction false} TabCountNone(s: string)
    requires NoTab(s)
    ensures TabCount(s) == 0
    decreases |s|
  {
    if s != [] {
      TabCountNone(s[..|s| - 1]);
    }
  }

  lemma {:induction false} JoinTabCount(ts: seq<string>)
    requires forall i :: 0 <= i < |ts| ==> NoTab(ts[i])
    ensures TabCount(Join(ts)) == |ts|
    decreases |ts|
  {
    if ts != [] {
      var n := |ts| - 1;
      JoinTabCount(ts[..n]);
      TabCountNone(ts[n]);
      TabCountAppend(Join(ts[..n]), ts[n] + [Tab]);
      TabCountAppend(ts[n], [Tab]);
      assert TabCount([Tab]) == 1 by {
        assert [Tab][..0] == [];
      }
    }
  }

  /** No property text holds a tab. */
  predicate TabFree(rec: Record) {
    forall i :: 0 <= i < |rec| ==> NoTab(FieldText(rec[i]))
  }

  /** When no value holds a tab, the content holds exactly one tab per property. */
  lemma EncodeTabCount(rec: Record)
    requires TabFree(rec)
    ensures TabCount(Encode(rec)) == |rec|
  {
    JoinTabCount(Texts(rec));
  }

  // ---------------------------------------------------------------------------
  // Decoding (ReadFileContent and Parse)

  /** `Guid.Parse(str)`, boxed. */
  function ParseGuidValue(str: string): (r: Result<Value, Exception>)
    ensures r.Success? ==> r.value.GuidValue?
    ensures r.Failure? ==> r.error == FormatException
  {
    var g := ParseGuid(str);
    if g.Success? then Success(GuidValue(g.value)) else Failure(g.error)
  }

  /** `int.Parse(str)`, boxed. */
  function ParseIntValue(str: string): (r: Result<Value, Exception>)
    ensures r.Success? ==> r.value.Int?
    ensures r.Failure? ==> r.error == FormatException || r.error == OverflowException
  {
    var i := ParseInt32(str);
    if i.Success? then Success(Int(i.value)) else Failure(i.error)
  }

  /** Parse: the type-directed conversion of one non-"NULL" segment. */
  function Parse(str: string, kind: FieldKind): (r: Result<Value, Exception>)
    ensures r.Success? ==> KindOf(r.value) == kind
  {
    match kind
    case StrKind => Success(Str(str))
    case GuidKind => ParseGuidValue(str)
    case IntKind => ParseIntValue(str)
    case OtherKind(name) => Failure(NotSupportedException(name))
  }

  /** Only an unsupported property type raises NotSupportedException, and it always does;
      a supported one fails, if at all, with FormatException or OverflowException. */
  lemma ParseFailures(str: string, kind: FieldKind)
    ensures kind.OtherKind? ==> Parse(str, kind) == Failure(NotSupportedException(kind.typeName))
    ensures !kind.OtherKind? && Parse(str, kind).Failure? ==>
      Parse(str, kind).error == FormatException || Parse(str, kind).error == OverflowException
  {
    match kind
    case StrKind =>
    case GuidKind =>
    case IntKind =>
    case OtherKind(_) =>
  }

  /** Parse reads back the text of every value of a supported kind. */
  lemma ParseFieldText(v: Value)
    requires !v.Other?
    ensures Parse(FieldText(Some(v)), KindOf(v)) == Success(v)
  {
    match v
    case Str(_) =>
    case GuidValue(g) => GuidRoundTrip(g);
    case Int(i) => Int32RoundTrip(i);
  }

  /** One iteration of ReadFileContent: "NULL" sets null, anything else is parsed. */
  function DecodeField(kind: FieldKind, part: string): (r: Result<Option<Value>, Exception>)
    ensures r.Success? ==> FieldConforms(kind, r.value)
    ensures part == NullText ==> r == Success(NullOf(kind))
    ensures r.Failure? && r.error.NotSupportedException? ==> kind == OtherKind(r.error.typeName)
  {
    if part == NullText then Success(NullOf(kind))
    else
      ParseFailures(part, kind);
      var v := Parse(part, kind);
      if v.Success? then Success(Some(v.value)) else Failure(v.error)
  }

  /** The properties decoded in declaration order; the first failure is the one thrown. */
  function DecodeFields(kinds: seq<FieldKind>, parts: seq<string>): (r: Result<Record, Exception>)
    requires |kinds| == |parts|
    ensures r.Success? ==> Conforms(kinds, r.value)
    ensures r.Failure? && r.error.NotSupportedException? ==> OtherKind(r.error.typeName) in kinds
  {
    if kinds == [] then Success([])
    else
      var n := |kinds| - 1;
      var init := DecodeFields(kinds[..n], parts[..n]);
      if init.Failure? then init
      else
        var f := DecodeField(kinds[n], parts[n]);
        if f.Failure? then Failure(f.error) else Success(init.value + [f.value])
  }

  /** The record a file's content denotes, or the exception reading it throws. */
  function Decode(kinds: seq<FieldKind>, content: string): (r: Result<Record, Exception>)
    ensures |SplitRemoveEmpty(content, Tab)| != |kinds| ==> r == Failure(InvalidOperationException)
    ensures r.Success? ==> Conforms(kinds, r.value)
    ensures r.Failure? && r.error.NotSupportedException? ==> OtherKind(r.error.typeName) in kinds
  {
    var parts := SplitRemoveEmpty(content, Tab);
    if |parts| != |kinds| then Failure(InvalidOperationException)
    else DecodeFields(kinds, parts)
  }

  /** Decoding the parts one by one never raises InvalidOperationException. */
  lemma {:induction false} DecodeFieldsNoInvalidOperation(kinds: seq<FieldKind>, parts: seq<string>)
    requires |kinds| == |parts|
    ensures DecodeFields(kinds, parts) != Failure(InvalidOperationException)
    decreases |kinds|
  {
    if kinds != [] {
      var n := |kinds| - 1;
      DecodeFieldsNoInvalidOperation(kinds[..n], parts[..n]);
      ParseFailures(parts[n], kinds[n]);
    }
  }

  /** InvalidOperationException is raised exactly when the piece count differs from the property count. */
  lemma InvalidOperationMeansCountMismatch(kinds: seq<FieldKind>, content: string)
    ensures Decode(kinds, content) == Failure(InvalidOperationException) <==>
      |SplitRemoveEmpty(content, Tab)| != |kinds|
  {
    var parts := SplitRemoveEmpty(content, Tab);
    if |parts| == |kinds| {
      DecodeFieldsNoInvalidOperation(kinds, parts);
    }
  }

  /** ReadFileContent: split, check the count, then set each property of a
      default-constructed instance in turn. */
  method ReadFileContent(kinds: seq<FieldKind>, content: string) returns (r: Result<Record, Exception>)
    ensures r == Decode(kinds, content)
  {
    var parts := SplitRemoveEmpty(content, Tab);
    var instance: Record := seq(|kinds|, i requires 0 <= i < |kinds| => NullOf(kinds[i]));
    if |parts| != |kinds| {
      return Failure(InvalidOperationException);
    }
    var i := 0;
    while i < |kinds|
      invariant 0 <= i <= |kinds| == |instance|
      invariant DecodeFields(kinds[..i], parts[..i]) == Success(instance[..i])
    {
      var value := DecodeField(kinds[i], parts[i]);
      DecodeFieldsStep(kinds, parts, i, instance[..i]);
      if value.Failure? {
        DecodeFieldsFailureSticks(kinds, parts, i + 1);
        return Failure(value.error);
      }
      ghost var done := instance[..i];
      instance := instance[i := value.value];
      assert instance[..i + 1] == done + [value.value];
      i := i + 1;
    }
    assert kinds[..i] == kinds && parts[..i] == parts && instance[..i] == instance;
    r := Success(instance);
  }

  /** Decoding one more property extends a decoded prefix, or fails with that property's exception. */
  lemma DecodeFieldsStep(kinds: seq<FieldKind>, parts: seq<string>, i: nat, done: Record)
    requires i < |kinds| == |parts|
    requires DecodeFields(kinds[..i], parts[..i]) == Success(done)
    ensures var f := DecodeField(kinds[i], parts[i]);
      DecodeFields(kinds[..i + 1], parts[..i + 1]) == if f.Failure? then Failure(f.error) else Success(done + [f.value])
  {
    assert kinds[..i + 1][..i] == kinds[..i] && parts[..i + 1][..i] == parts[..i];
  }

  /** Once a prefix of the properties fails to decode, the whole record does, with the same exception. */
  lemma {:induction false} DecodeFieldsFailureSticks(kinds: seq<FieldKind>, parts: seq<string>, j: nat)
    requires |kinds| == |parts| && j <= |kinds|
    requires DecodeFields(kinds[..j], parts[..j]).Failure?
    ensures DecodeFields(kinds, parts) == DecodeFields(kinds[..j], parts[..j])
    decreases |kinds|
  {
    if j < |kinds| {
      var n := |kinds| - 1;
      assert kinds[..n][..j] == kinds[..j] && parts[..n][..j] == parts[..j];
      DecodeFieldsFailureSticks(kinds[..n], parts[..n], j);
      assert DecodeFields(kinds[..n], parts[..n]).Failure?;
    } else {
      assert kinds[..j] == kinds && parts[..j] == parts;
    }
  }

  // ---------------------------------------------------------------------------
  // What survives a round trip

  /** The texts that String.Split keeps: the non-empty ones. */
  function NonEmpty(ts: seq<string>): seq<string> {
    if ts == [] then []
    else NonEmpty(ts[..|ts| - 1]) + (if ts[|ts| - 1] == [] then [] else [ts[|ts| - 1]])
  }

  lemma {:induction false} NonEmptyKeepsAll(ts: seq<string>)
    requires forall i :: 0 <= i < |ts| ==> ts[i] != []
    ensures NonEmpty(ts) == ts
    decreases |ts|
  {
    if ts != [] {
      NonEmptyKeepsAll(ts[..|ts| - 1]);
    }
  }

  lemma {:induction false} NonEmptyDropsEmpty(ts: seq<string>, k: nat)
    requires k < |ts| && ts[k] == []
    ensures |NonEmpty(ts)| < |ts|
    decreases |ts|
  {
    var n := |ts| - 1;
    if k < n {
      NonEmptyDropsEmpty(ts[..n], k);
    } else {
      NonEmptyAtMost(ts[..n]);
    }
  }

  lemma {:induction false} NonEmptyAtMost(ts: seq<string>)
    ensures |NonEmpty(ts)| <= |ts|
    decreases |ts|
  {
    if ts != [] {
      NonEmptyAtMost(ts[..|ts| - 1]);
    }
  }

  /** Splitting joined texts that hold no tab gives back the non-empty ones, in order. */
  lemma {:induction false} SplitJoin(ts: seq<string>)
    requires forall i :: 0 <= i < |ts| ==> NoTab(ts[i])
    ensures SplitRemoveEmpty(Join(ts), Tab) == NonEmpty(ts)
    decreases |ts|
  {
    if ts != [] {
      var n := |ts| - 1;
      var t := ts[n];
      SplitJoin(ts[..n]);
      assert Join(ts) == Join(ts[..n]) + (t + [Tab]);
      SplitAppend(Join(ts[..n]), t + [Tab], Tab);
      if t == [] {
        assert SplitRemoveEmpty([Tab], Tab) == SplitRemoveEmpty([], Tab);
      } else {
        assert Tab !in t by {
          assert NoTab(ts[n]);
        }
        SplitSegment(t, [], Tab);
        assert t + [Tab] + [] == t + [Tab];
      }
    }
  }

  /** When no value holds a tab, splitting the content gives back the
      non-empty property texts, in order. */
  lemma SplitEncode(rec: Record)
    requires TabFree(rec)
    ensures SplitRemoveEmpty(Encode(rec), Tab) == NonEmpty(Texts(rec))
  {
    SplitJoin(Texts(rec));
  }

  /** Decoding is blind to a genuine "NULL" string: it reads back as null. */
  function ReadBackField(f: Option<Value>): Option<Value> {
    if f == Some(Str(NullText)) then None else f
  }

  /** The record that decoding the encoding of `rec` produces. */
  function ReadBack(rec: Record): (r: Record)
    ensures |r| == |rec|
  {
    seq(|rec|, i requires 0 <= i < |rec| => ReadBackField(rec[i]))
  }

  /** A property value that the encoding carries without loss of position:
      a supported kind, and for a string, non-empty text without a tab. */
  predicate Storable(f: Option<Value>) {
    match f
    case None => true
    case Some(Str(s)) => s != [] && NoTab(s)
    case Some(GuidValue(_)) => true
    case Some(Int(_)) => true
    case Some(Other(_, _)) => false
  }

  predicate StorableRecord(kinds: seq<FieldKind>, rec: Record) {
    Conforms(kinds, rec) && forall i :: 0 <= i < |rec| ==> Storable(rec[i])
  }

  lemma DecodeFieldText(k: FieldKind, f: Option<Value>)
    requires FieldConforms(k, f) && Storable(f)
    ensures DecodeField(k, FieldText(f)) == Success(ReadBackField(f))
  {
    match f
    case None =>
    case Some(v) =>
      ParseFieldText(v);
      if v.Int? {
        assert FieldText(f)[0] != 'N';
      } else if v.GuidValue? {
        assert |FieldText(f)| != |NullText|;
      }
  }

  lemma {:induction false} DecodeFieldsTexts(kinds: seq<FieldKind>, rec: Record)
    requires StorableRecord(kinds, rec)
    ensures DecodeFields(kinds, Texts(rec)) == Success(ReadBack(rec))
    decreases |rec|
  {
    if rec != [] {
      var n := |rec| - 1;
      assert StorableRecord(kinds[..n], rec[..n]) by {
        forall i | 0 <= i < n ensures FieldConforms(kinds[..n][i], rec[..n][i]) && Storable(rec[..n][i]) {
          assert kinds[..n][i] == kinds[i] && rec[..n][i] == rec[i];
        }
      }
      var ts := Texts(rec);
      assert ts[..n] == Texts(rec[..n]) && ts[n] == FieldText(rec[n]);
      DecodeFieldsTexts(kinds[..n], rec[..n]);
      DecodeFieldText(kinds[n], rec[n]);
      assert DecodeFields(kinds, ts) == Success(ReadBack(rec[..n]) + [ReadBackField(rec[n])]);
      assert ReadBack(rec) == ReadBack(rec[..n]) + [ReadBackField(rec[n])];
    }
  }

  /** Splitting the content of a storable record gives back its property texts. */
  lemma SplitStorable(kinds: seq<FieldKind>, rec: Record)
    requires StorableRecord(kinds, rec)
    ensures SplitRemoveEmpty(Encode(rec), Tab) == Texts(rec)
  {
    assert TabFree(rec) by {
      forall i | 0 <= i < |rec| ensures NoTab(FieldText(rec[i])) {
        assert Storable(rec[i]);
        match rec[i]
        case None =>
        case Some(_) =>
      }
    }
    SplitEncode(rec);
    forall i | 0 <= i < |rec| ensures Texts(rec)[i] != [] {
      assert Storable(rec[i]);
    }
    NonEmptyKeepsAll(Texts(rec));
  }

  /** Decoding the encoding of a storable record gives it back, except that a
      genuine "NULL" string comes back null. */
  lemma DecodeEncode(kinds: seq<FieldKind>, rec: Record)
    requires StorableRecord(kinds, rec)
    ensures Decode(kinds, Encode(rec)) == Success(ReadBack(rec))
  {
    SplitStorable(kinds, rec);
    DecodeFieldsTexts(kinds, rec);
  }

  /** The round trip: with no "NULL" string among the values, decode(encode(r)) == r. */
  lemma RoundTrip(kinds: seq<FieldKind>, rec: Record)
    requires StorableRecord(kinds, rec)
    requires forall i :: 0 <= i < |rec| ==> rec[i] != Some(Str(NullText))
    ensures Decode(kinds, Encode(rec)) == Success(rec)
  {
    DecodeEncode(kinds, rec);
    assert ReadBack(rec) == rec;
  }

  /** A genuine string value "NULL" is read back as null. */
  lemma NullStringReadsBackNull(kinds: seq<FieldKind>, rec: Record, i: nat)
    requires StorableRecord(kinds, rec)
    requires i < |rec| && rec[i] == Some(Str(NullText))
    ensures Decode(kinds, Encode(rec)).Success?
    ensures Decode(kinds, Encode(rec)).value[i] == None
  {
    DecodeEncode(kinds, rec);
  }

  /** An empty text (an empty string, say) is dropped by the split, so the part
      count falls short and reading the content throws InvalidOperationException. */
  lemma EmptyTextBreaksDecode(kinds: seq<FieldKind>, rec: Record, i: nat)
    requires |kinds| == |rec| && TabFree(rec)
    requires i < |rec| && FieldText(rec[i]) == []
    ensures Decode(kinds, Encode(rec)) == Failure(InvalidOperationException)
  {
    SplitEncode(rec);
    NonEmptyDropsEmpty(Texts(rec), i);
  }
}
