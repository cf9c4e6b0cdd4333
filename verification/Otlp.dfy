/** The attribute part of the OTLP codec: nested attributes to typed key-value pairs and back. */
module Otlp {
  import opened Flattening
  import opened Keys
  import opened Outcomes
  import opened RoundTrip
  import opened Tries
  import opened Unflatten
  import opened Walks
  import opened Wrappers

  /** The protobuf value the wire carries. */
  datatype AnyValue =
    | NotSet
    | StringValue(s: string)
    | BoolValue(b: bool)
    | IntValue(i: int)
    | DoubleValue(d: real)
    | BytesValue(bytes: seq<bv8>)
    | ArrayValue(values: seq<AnyValue>)
    | KvListValue(kvs: seq<KeyValue>)

  datatype KeyValue = KeyValue(key: string, value: AnyValue)

  /** What the codec relies on: which keys hold JSON text, `int(...)` and `json.loads` where they
      succeed, and `json.dumps`. */
  datatype Library = Library(
    isJson: string -> bool,
    toInt: Value -> Option<int>,
    dumps: Value -> string,
    loads: Value -> Option<Value>)

  const SPAN_KIND := "openinference.span.kind"
  const TOKEN_COUNT_KEYS := {"llm.token_count.prompt", "llm.token_count.completion", "llm.token_count.total"}
  const JSON_KEYS := ["document.metadata", "llm.prompt_template.variables", "metadata", "tool.parameters"]
  const JSON_MIME_TYPE := Atom(Str("application/json"))

  // ---------------------------------------------------------------- single values

  predicate FitsInt64(i: int)
  {
    -0x8000_0000_0000_0000 <= i < 0x8000_0000_0000_0000
  }

  /** `_encode_value`; `None` where it raises. */
  function EncodeValue(v: Value): Option<AnyValue>
    decreases v, 0
  {
    match v
    case Atom(Str(s)) => Some(StringValue(s))
    case Atom(Bool(b)) => Some(BoolValue(b))
    case Atom(Int(i)) => if FitsInt64(i) then Some(IntValue(i)) else None
    case Atom(Float(d)) => Some(DoubleValue(d))
    case Atom(Bytes(bytes)) => Some(BytesValue(bytes))
    case List(items) =>
      var values := EncodeAll(items);
      if values.None? then None else Some(ArrayValue(values.value))
    case Dict(_) => None
    case Null => None
  }

  function EncodeAll(items: seq<Value>): Option<seq<AnyValue>>
    decreases items, 1
  {
    if items == [] then Some([])
    else
      var first, rest := EncodeValue(items[0]), EncodeAll(items[1..]);
      if first.None? || rest.None? then None else Some([first.value] + rest.value)
  }

  /** `_decode_value` */
  function DecodeValue(a: AnyValue): Value
    decreases a, 0
  {
    match a
    case NotSet => Null
    case StringValue(s) => Atom(Str(s))
    case BoolValue(b) => Atom(Bool(b))
    case IntValue(i) => Atom(Int(i))
    case DoubleValue(d) => Atom(Float(d))
    case BytesValue(bytes) => Atom(Bytes(bytes))
    case ArrayValue(values) => List(DecodeAll(values))
    case KvListValue(kvs) => Dict(DecodeKvs(kvs))
  }

  function DecodeAll(values: seq<AnyValue>): seq<Value>
    decreases values, 1
  {
    if values == [] then [] else [DecodeValue(values[0])] + DecodeAll(values[1..])
  }

  function DecodeKvs(kvs: seq<KeyValue>): map<string, Value>
    decreases kvs, 1
  {
    if kvs == [] then map[]
    else
      var last := kvs[|kvs| - 1];
      DecodeKvs(kvs[..|kvs| - 1])[last.key := DecodeValue(last.value)]
  }

  /** Nothing in the value is absent, a mapping, or an integer of more than 64 bits. */
  predicate Encodable(v: Value)
  {
    match v
    case Null => false
    case Dict(_) => false
    case Atom(Int(i)) => -9_223_372_036_854_775_808 <= i <= 9_223_372_036_854_775_807
    case Atom(_) => true
    case List(items) => forall k :: 0 <= k < |items| ==> Encodable(items[k])
  }

  /** The value on the wire: of its own kind, and element by element for a list. */
  predicate IsWire(v: Value, a: AnyValue)
    decreases v
  {
    match v
    case Null => false
    case Dict(_) => false
    case Atom(Str(s)) => a == StringValue(s)
    case Atom(Bool(b)) => a == BoolValue(b)
    case Atom(Int(i)) => a == IntValue(i) && Encodable(v)
    case Atom(Float(d)) => a == DoubleValue(d)
    case Atom(Bytes(bytes)) => a == BytesValue(bytes)
    case List(items) =>
      a.ArrayValue? && |a.values| == |items| && forall k :: 0 <= k < |items| ==> IsWire(items[k], a.values[k])
  }

  /** Encoding raises exactly on the values that are not encodable, and otherwise gives the wire value. */
  lemma {:induction false} EncodesExactly(v: Value)
    ensures EncodeValue(v).Some? <==> Encodable(v)
    ensures forall a :: EncodeValue(v) == Some(a) <==> IsWire(v, a)
    decreases v, 0
  {
    if v.List? {
      EncodesAllExactly(v.items);
      forall a
        ensures EncodeValue(v) == Some(a) <==> IsWire(v, a)
      {
        if a.ArrayValue? {
          assert AreWire(v.items, a.values) <==> IsWire(v, a);
        }
      }
    }
  }

  predicate AreWire(items: seq<Value>, values: seq<AnyValue>)
  {
    |values| == |items| && forall k :: 0 <= k < |items| ==> IsWire(items[k], values[k])
  }

  lemma {:induction false} EncodesAllExactly(items: seq<Value>)
    ensures EncodeAll(items).Some? <==> forall k :: 0 <= k < |items| ==> Encodable(items[k])
    ensures forall values :: EncodeAll(items) == Some(values) <==> AreWire(items, values)
    decreases items, 1
  {
    if items != [] {
      EncodesExactly(items[0]);
      EncodesAllExactly(items[1..]);
      assert items == [items[0]] + items[1..];
      forall values
        ensures AreWire(items, values) <==>
                values != [] && IsWire(items[0], values[0]) && AreWire(items[1..], values[1..])
      {
        WireSplits(items, values);
      }
      forall values
        ensures EncodeAll(items) == Some(values) <==> AreWire(items, values)
      {
        if values != [] {
          assert values == [values[0]] + values[1..];
        }
      }
    }
  }

  lemma WireSplits(items: seq<Value>, values: seq<AnyValue>)
    requires items != []
    ensures AreWire(items, values) <==>
            values != [] && IsWire(items[0], values[0]) && AreWire(items[1..], values[1..])
  {
    if values != [] && IsWire(items[0], values[0]) && AreWire(items[1..], values[1..]) {
      forall k | 0 <= k < |items|
        ensures IsWire(items[k], values[k])
      {
        assert k > 0 ==> items[k] == items[1..][k - 1] && values[k] == values[1..][k - 1];
      }
    }
  }

  /** Decoding undoes encoding. */
  lemma {:induction false} DecodeEncoded(v: Value)
    requires Encodable(v)
    ensures EncodeValue(v).Some? && DecodeValue(EncodeValue(v).value) == v
    decreases v, 0
  {
    EncodesExactly(v);
    if v.List? {
      DecodeEncodedAll(v.items);
    }
  }

  lemma {:induction false} DecodeEncodedAll(items: seq<Value>)
    requires EncodeAll(items).Some?
    ensures DecodeAll(EncodeAll(items).value) == items
    decreases items, 1
  {
    if items != [] {
      EncodesExactly(items[0]);
      DecodeEncoded(items[0]);
      DecodeEncodedAll(items[1..]);
      var first, rest := EncodeValue(items[0]).value, EncodeAll(items[1..]).value;
      assert ([first] + rest)[1..] == rest;
    }
  }

  // ---------------------------------------------------------------- encoding a span's attributes

  predicate EndsWith(s: string, suffix: string)
  {
    |suffix| <= |s| && s[|s| - |suffix|..] == suffix
  }

  predicate IsJsonKey(key: string)
  {
    exists i :: 0 <= i < |JSON_KEYS| && EndsWith(key, JSON_KEYS[i])
  }

  /** The keys that hold JSON text are those that end in one of the listed names. */
  lemma JsonKeysEnd(key: string)
    ensures IsJsonKey(key) <==> exists prefix: string, i :: 0 <= i < |JSON_KEYS| && key == prefix + JSON_KEYS[i]
  {
    if IsJsonKey(key) {
      var i :| 0 <= i < |JSON_KEYS| && EndsWith(key, JSON_KEYS[i]);
      assert key == key[..|key| - |JSON_KEYS[i]|] + JSON_KEYS[i];
    }
    if prefix: string, i :| 0 <= i < |JSON_KEYS| && key == prefix + JSON_KEYS[i] {
      assert key[|key| - |JSON_KEYS[i]|..] == JSON_KEYS[i];
    }
  }

  /** `flatten(..., recurse_on_sequence=True, json_string_attributes=...)`: a dictionary under a JSON
      key is written out as text instead of being flattened. */
  function FlattenJson(lib: Library, key: string, v: Value): PairSet
    decreases v, 0
  {
    match v
    case Null => {}
    case Atom(_) => {(key, v)}
    case Dict(entries) =>
      set k, kv | k in entries && kv in FlattenEntry(lib, Join(key, k), entries[k]) :: kv
    case List(items) =>
      (if HasMapping(items) then {} else {(key, v)})
      + set i, kv | 0 <= i < |items| && items[i].Dict? && kv in FlattenJson(lib, Join(key, Show(i)), items[i]) :: kv
  }

  function FlattenEntry(lib: Library, key: string, v: Value): PairSet
    decreases v, 1
  {
    if v.Dict? && lib.isJson(key) then {(key, Atom(Str(lib.dumps(v))))} else FlattenJson(lib, key, v)
  }

  /** `attributes.update(pairs)`: the pairs are written in no particular order. */
  method Update(attributes: map<string, Value>, pairs: PairSet) returns (after: map<string, Value>)
    requires Functional(pairs)
    ensures forall kv :: kv in pairs ==> kv.0 in after && after[kv.0] == kv.1
    ensures forall k :: k !in KeysIn(pairs) ==>
            (k in after <==> k in attributes) && (k in after ==> after[k] == attributes[k])
  {
    after := attributes;
    var todo := pairs;
    while todo != {}
      invariant todo <= pairs
      invariant forall kv :: kv in pairs - todo ==> kv.0 in after && after[kv.0] == kv.1
      invariant forall k :: k !in KeysIn(pairs) ==>
                  (k in after <==> k in attributes) && (k in after ==> after[k] == attributes[k])
      decreases todo
    {
      var kv :| kv in todo;
      after := after[kv.0 := kv.1];
      todo := todo - {kv};
    }
  }

  lemma FlattenJsonCases(lib: Library, v: Value, key: string, f: (string, Value))
    ensures f in FlattenJson(lib, key, v) <==>
            || (Leaf(v) && f == (key, v))
            || exists l :: HasLabel(v, l)
                           && f in (if v.Dict? then FlattenEntry(lib, Join(key, ShowLabel(l)), ChildOf(v, l))
                                    else FlattenJson(lib, Join(key, ShowLabel(l)), ChildOf(v, l)))
  {
    match v
    case Null =>
    case Atom(_) =>
    case Dict(entries) =>
      if k :| k in entries && f in FlattenEntry(lib, Join(key, k), entries[k]) {
        assert HasLabel(v, Name(k)) && ChildOf(v, Name(k)) == entries[k];
      }
    case List(items) =>
      if i: nat :| i < |items| && items[i].Dict? && f in FlattenJson(lib, Join(key, Show(i)), items[i]) {
        assert HasLabel(v, Idx(i)) && ChildOf(v, Idx(i)) == items[i];
      }
  }

  // ---------------------------------------------------------------- dictionaries sent as text

  /** A dictionary entry under a JSON key travels whole. */
  function JsonCut(lib: Library): Cut
  {
    (p: Path) => p != [] && p[|p| - 1].Name? && lib.isJson(ShowPath(p))
  }

  /** The text that stands for a dictionary that travels whole. */
  function AsText(lib: Library, v: Value): Value
  {
    if v.Dict? then Atom(Str(lib.dumps(v))) else v
  }

  /** The value as it is sent: every dictionary that travels whole is replaced by its text. */
  ghost function Sent(lib: Library, v: Value, p: Path): Value
    decreases v, 1
  {
    if v.Dict? && JsonCut(lib)(p) then AsText(lib, v)
    else match v
      case Dict(entries) => Dict(SentEntries(lib, entries, p))
      case List(items) =>
        List(seq(|items|, i requires 0 <= i < |items| =>
          if items[i].Dict? then Sent(lib, items[i], p + [Idx(i)]) else items[i]))
      case _ => v
  }

  ghost function SentEntries(lib: Library, m: map<string, Value>, p: Path): map<string, Value>
    decreases Dict(m), 0
  {
    map k | k in m :: Sent(lib, m[k], p + [Name(k)])
  }

  /** An element of a list never travels whole. */
  lemma ItemStays(lib: Library, v: Value, p: Path, i: nat)
    ensures !JsonCut(lib)(p + [Idx(i)])
    ensures v.Dict? ==> Sent(lib, v, p + [Idx(i)]).Dict?
  {
    assert (p + [Idx(i)])[|p|] == Idx(i);
  }

  lemma JsonCutsEntries(lib: Library)
    ensures CutsEntries(JsonCut(lib))
  {
  }

  /** Sending a value keeps its shape, down to what travels whole. */
  lemma SentShape(lib: Library, v: Value, p: Path, l: Label)
    requires !(v.Dict? && JsonCut(lib)(p))
    ensures Leaf(v) <==> Leaf(Sent(lib, v, p))
    ensures Leaf(v) ==> Sent(lib, v, p) == v
    ensures v.Dict? <==> Sent(lib, v, p).Dict?
    ensures HasLabel(v, l) <==> HasLabel(Sent(lib, v, p), l)
    ensures HasLabel(v, l) ==> ChildOf(Sent(lib, v, p), l) == Sent(lib, ChildOf(v, l), p + [l])
  {
    if v.List? {
      var items, sent := v.items, Sent(lib, v, p).items;
      forall i | 0 <= i < |items|
        ensures sent[i].Dict? <==> items[i].Dict?
      {
        ItemStays(lib, items[i], p, i);
        assert sent[i] == if items[i].Dict? then Sent(lib, items[i], p + [Idx(i)]) else items[i];
      }
      if Leaf(v) {
        assert sent == items;
      }
      assert l.Idx? ==> l == Idx(l.i);
    } else if v.Dict? {
      assert l.Name? ==> l == Name(l.s);
    }
  }

  /** Flattening with JSON keys is flattening what is sent. */
  lemma {:induction false} FlattenJsonIsFlatten(lib: Library, v: Value, p: Path, f: (string, Value))
    requires !(v.Dict? && JsonCut(lib)(p))
    ensures f in FlattenJson(lib, ShowPath(p), v) <==> f in Flatten(ShowPath(p), Sent(lib, v, p))
    decreases v, 0
  {
    var sent := Sent(lib, v, p);
    FlattenJsonCases(lib, v, ShowPath(p), f);
    FlattenCases(sent, ShowPath(p), f);
    SentShape(lib, v, p, Idx(0));
    forall l
      ensures HasLabel(v, l) <==> HasLabel(sent, l)
      ensures HasLabel(v, l) ==>
                (f in (if v.Dict? then FlattenEntry(lib, Join(ShowPath(p), ShowLabel(l)), ChildOf(v, l))
                       else FlattenJson(lib, Join(ShowPath(p), ShowLabel(l)), ChildOf(v, l)))
                 <==> f in Flatten(Join(ShowPath(p), ShowLabel(l)), ChildOf(sent, l)))
    {
      SentShape(lib, v, p, l);
      if HasLabel(v, l) {
        ChildFlattened(lib, v, p, l, f);
      }
    }
  }

  lemma {:induction false} ChildFlattened(lib: Library, v: Value, p: Path, l: Label, f: (string, Value))
    requires !(v.Dict? && JsonCut(lib)(p)) && HasLabel(v, l)
    ensures var key, child := Join(ShowPath(p), ShowLabel(l)), ChildOf(v, l);
            f in (if v.Dict? then FlattenEntry(lib, key, child) else FlattenJson(lib, key, child))
            <==> f in Flatten(key, Sent(lib, child, p + [l]))
    decreases ChildOf(v, l), 1
  {
    var child, q := ChildOf(v, l), p + [l];
    ShowPathLast(p, l);
    assert q[|q| - 1] == l;
    if child.Dict? && JsonCut(lib)(q) {
      assert Flatten(ShowPath(q), AsText(lib, child)) == {(ShowPath(q), AsText(lib, child))};
    } else {
      FlattenJsonIsFlatten(lib, child, q, f);
    }
  }

  lemma {:induction false} SentWellFormed(lib: Library, v: Value, p: Path)
    requires WellFormed(JsonCut(lib), v, p)
    ensures WellFormed(NO_CUT, Sent(lib, v, p), p)
    decreases v, 1
  {
    if v.Dict? && !JsonCut(lib)(p) {
      SentEntriesWellFormed(lib, v.entries, p);
      var k :| k in v.entries;
      assert k in SentEntries(lib, v.entries, p);
    } else if v.List? && !Leaf(v) {
      SentShape(lib, v, p, Idx(0));
      forall i | 0 <= i < |v.items|
        ensures Sent(lib, v, p).items[i].Dict? && WellFormed(NO_CUT, Sent(lib, v, p).items[i], p + [Idx(i)])
      {
        SentWellFormed(lib, v.items[i], p + [Idx(i)]);
        SentShape(lib, v, p, Idx(i));
        assert HasLabel(v, Idx(i));
      }
    } else if v.List? {
      SentShape(lib, v, p, Idx(0));
    }
  }

  lemma {:induction false} SentEntriesWellFormed(lib: Library, m: map<string, Value>, p: Path)
    requires WellFormedEntries(JsonCut(lib), m, p)
    ensures WellFormedEntries(NO_CUT, SentEntries(lib, m, p), p)
    decreases Dict(m), 0
  {
    forall k | k in m
      ensures WellFormed(NO_CUT, SentEntries(lib, m, p)[k], p + [Name(k)])
    {
      SentWellFormed(lib, m[k], p + [Name(k)]);
    }
  }

  lemma SentWhole(lib: Library, v: Value, p: Path, q: Path, y: Value)
    requires Whole(JsonCut(lib), v, p)
    ensures LeafAt(NO_CUT, Sent(lib, v, p), p, q, y) <==> q == p && y == AsText(lib, v)
  {
    if !v.Dict? {
      SentShape(lib, v, p, Idx(0));
    }
    LeafCases(NO_CUT, Sent(lib, v, p), p, q, y);
  }

  /** A leaf of what is sent is the text of a leaf. */
  lemma {:induction false} SentLeafSource(lib: Library, v: Value, p: Path, q: Path, y: Value) returns (x: Value)
    requires LeafAt(NO_CUT, Sent(lib, v, p), p, q, y)
    ensures LeafAt(JsonCut(lib), v, p, q, x) && y == AsText(lib, x)
    decreases v
  {
    if Whole(JsonCut(lib), v, p) {
      SentWhole(lib, v, p, q, y);
      x := v;
    } else {
      SentShape(lib, v, p, Idx(0));
      LeafCases(NO_CUT, Sent(lib, v, p), p, q, y);
      var l :| LeafVia(NO_CUT, Sent(lib, v, p), p, l, q, y);
      SentShape(lib, v, p, l);
      x := SentLeafSource(lib, ChildOf(v, l), p + [l], q, y);
      assert LeafVia(JsonCut(lib), v, p, l, q, x);
    }
    LeafCases(JsonCut(lib), v, p, q, x);
  }

  /** The text of a leaf is a leaf of what is sent. */
  lemma {:induction false} LeafSent(lib: Library, v: Value, p: Path, q: Path, x: Value)
    requires LeafAt(JsonCut(lib), v, p, q, x)
    ensures LeafAt(NO_CUT, Sent(lib, v, p), p, q, AsText(lib, x))
    decreases v
  {
    LeafCases(JsonCut(lib), v, p, q, x);
    if Whole(JsonCut(lib), v, p) {
      SentWhole(lib, v, p, q, AsText(lib, x));
    } else {
      var l :| LeafVia(JsonCut(lib), v, p, l, q, x);
      SentShape(lib, v, p, l);
      LeafSent(lib, ChildOf(v, l), p + [l], q, x);
      assert LeafVia(NO_CUT, Sent(lib, v, p), p, l, q, AsText(lib, x));
      LeafCases(NO_CUT, Sent(lib, v, p), p, q, AsText(lib, x));
    }
  }

  /** The leaves of what is sent are the leaves of the value, dictionaries as text. */
  lemma SentLeaves(lib: Library, v: Value, p: Path, q: Path, y: Value)
    ensures LeafAt(NO_CUT, Sent(lib, v, p), p, q, y) <==>
            exists x :: LeafAt(JsonCut(lib), v, p, q, x) && y == AsText(lib, x)
  {
    if LeafAt(NO_CUT, Sent(lib, v, p), p, q, y) {
      var x := SentLeafSource(lib, v, p, q, y);
    }
    if x :| LeafAt(JsonCut(lib), v, p, q, x) && y == AsText(lib, x) {
      LeafSent(lib, v, p, q, x);
    }
  }

  lemma SoleLabel(k: string)
    ensures ShowPath([Name(k)]) == k
  {
    ShowPathLast([], Name(k));
    assert [] + [Name(k)] == [Name(k)];
  }

  lemma FirstSegment(k: string, q: Path)
    requires GoodKey(k) && q != [] && q[0] == Name(k) && GoodPath(q)
    ensures Partition(ShowPath(q)).0 == k
  {
    assert q == [Name(k)] + q[1..];
    ShowPathFirst(Name(k), q[1..]);
    PartitionJoined(k, ShowPath(q[1..]));
  }

  /** Top-level values under good keys: well-formed, or absent. */
  ghost predicate TopWellFormed(cut: Cut, m: map<string, Value>)
  {
    forall k :: k in m ==> GoodKey(k) && (m[k] == Null || WellFormed(cut, m[k], [Name(k)]))
  }

  /** A pair flattened from a top-level value belongs to one leaf below it. */
  lemma TopLeaf(k: string, v: Value, f: (string, Value)) returns (q: Path)
    requires GoodKey(k) && (v == Null || WellFormed(NO_CUT, v, [Name(k)])) && f in Flatten(k, v)
    ensures LeafAt(NO_CUT, v, [Name(k)], q, f.1) && f.0 == ShowPath(q)
    ensures q != [] && q[0] == Name(k) && GoodPath(q)
  {
    var p := [Name(k)];
    SoleLabel(k);
    q := FlattenedIsLeaf(v, p, f);
    LeafBelow(NO_CUT, v, p, q, f.1);
    LeafGood(NO_CUT, v, p, q, f.1);
  }

  /** The first segment of a flattened key is the top-level key it came from. */
  lemma TopKey(k: string, v: Value, f: (string, Value))
    requires GoodKey(k) && (v == Null || WellFormed(NO_CUT, v, [Name(k)])) && f in Flatten(k, v)
    ensures Partition(f.0).0 == k
  {
    var q := TopLeaf(k, v, f);
    FirstSegment(k, q);
  }

  lemma TopFunctional(k: string, v: Value)
    requires GoodKey(k) && (v == Null || WellFormed(NO_CUT, v, [Name(k)]))
    ensures Functional(Flatten(k, v))
  {
    forall f, g | f in Flatten(k, v) && g in Flatten(k, v) && f.0 == g.0
      ensures f == g
    {
      var q := TopLeaf(k, v, f);
      var r := TopLeaf(k, v, g);
      ShowInjective(q, r);
      LeafUnique(NO_CUT, v, [Name(k)], q, f.1, g.1);
    }
  }

  /** The flat attributes while some top-level keys are still to be done: these stand as they were,
      the others have been replaced by what they flatten into as they are sent. */
  ghost predicate PartlyFlat(attributes: map<string, Value>, m: map<string, Value>, sent: map<string, Value>,
                             todo: set<string>)
  {
    forall f: (string, Value) ::
      (f.0 in attributes && attributes[f.0] == f.1) <==>
        (f.0 in todo && f.0 in m && m[f.0] == f.1) || exists k :: k in sent && k !in todo && f in Flatten(k, sent[k])
  }

  /** One top-level key has been replaced by the pairs its value flattens into. */
  ghost predicate Replaced(before: map<string, Value>, after: map<string, Value>, k: string, pairs: PairSet)
  {
    forall f: (string, Value) ::
      (f.0 in after && after[f.0] == f.1) <==>
        f in pairs || (f.0 != k && f.0 !in KeysIn(pairs) && f.0 in before && before[f.0] == f.1)
  }

  lemma OneMoreFlat(before: map<string, Value>, after: map<string, Value>, m: map<string, Value>,
                    sent: map<string, Value>, todo: set<string>, k: string)
    requires TopWellFormed(NO_CUT, sent) && m.Keys == sent.Keys && todo <= m.Keys && k in todo
    requires PartlyFlat(before, m, sent, todo) && Replaced(before, after, k, Flatten(k, sent[k]))
    ensures PartlyFlat(after, m, sent, todo - {k})
  {
    forall f: (string, Value)
      ensures (f.0 in after && after[f.0] == f.1) <==>
              || (f.0 in todo - {k} && f.0 in m && m[f.0] == f.1)
              || exists j :: j in sent && j !in todo - {k} && f in Flatten(j, sent[j])
    {
      if j :| j in sent && j !in todo && f in Flatten(j, sent[j]) {
        TopKey(j, sent[j], f);
        PartitionJoined(k, "");
        NotAmong(sent, f, k);
      }
      if f.0 in todo - {k} && f.0 in m && m[f.0] == f.1 {
        PartitionJoined(f.0, "");
        NotAmong(sent, f, k);
      }
    }
  }

  lemma NotAmong(sent: map<string, Value>, f: (string, Value), k: string)
    requires TopWellFormed(NO_CUT, sent) && k in sent && Partition(f.0).0 != k
    ensures f.0 !in KeysIn(Flatten(k, sent[k]))
  {
    if f.0 in KeysIn(Flatten(k, sent[k])) {
      var g :| g in Flatten(k, sent[k]) && g.0 == f.0;
      TopKey(k, sent[k], g);
    }
  }

  /** A pair a span is sent with: nested values are replaced by dotted keys, and the span kind is added
      when the attributes do not carry one. */
  ghost predicate IsSentPair(sent: map<string, Value>, kind: string, f: (string, Value))
  {
    || f in Flatten("", Dict(sent))
    || (f == (SPAN_KIND, Atom(Str(kind))) && SPAN_KIND !in KeysIn(Flatten("", Dict(sent))))
  }

  ghost predicate IsFlat(attributes: map<string, Value>, sent: map<string, Value>, kind: string)
  {
    forall f: (string, Value) :: (f.0 in attributes && attributes[f.0] == f.1) <==> IsSentPair(sent, kind, f)
  }

  /** The attribute loop of `encode_span_to_otlp`. */
  method FlatAttributes(lib: Library, m: map<string, Value>, kind: string) returns (attributes: map<string, Value>)
    requires TopWellFormed(JsonCut(lib), m)
    ensures IsFlat(attributes, SentEntries(lib, m, []), kind)
  {
    attributes := m;
    var todo := m.Keys;
    ghost var sent := SentEntries(lib, m, []);
    TopSentWellFormed(lib, m);
    while todo != {}
      invariant todo <= m.Keys && PartlyFlat(attributes, m, sent, todo)
      decreases todo
    {
      var k :| k in todo;
      var before := attributes;
      NextTop(lib, attributes, m, todo, k);
      attributes := FlattenTop(lib, attributes, k, m[k], sent[k]);
      OneMoreFlat(before, attributes, m, sent, todo, k);
      todo := todo - {k};
    }
    FlatAtLast(attributes, m, sent);
    if SPAN_KIND !in attributes {
      attributes := attributes[SPAN_KIND := Atom(Str(kind))];
    }
  }

  /** What the loop does with one attribute: an absent one is dropped, a nested one is replaced by its
      text or by what it flattens into, any other stays. */
  method FlattenTop(lib: Library, attributes: map<string, Value>, k: string, v: Value, ghost sent: Value)
    returns (after: map<string, Value>)
    requires k in attributes && attributes[k] == v && Functional(Flatten(k, sent)) && IsSentAs(lib, k, v, sent)
    ensures Replaced(attributes, after, k, Flatten(k, sent))
  {
    after := attributes;
    if v == Null {
      after := after - {k};
    } else if v.Dict? {
      after := after - {k};
      if lib.isJson(k) {
        after := after[k := Atom(Str(lib.dumps(v)))];
      } else {
        after := Update(after, FlattenJson(lib, k, v));
      }
    } else if v.List? && HasMapping(v.items) {
      after := after - {k};
      after := Update(after, FlattenJson(lib, k, v));
    }
  }

  ghost predicate IsSentAs(lib: Library, k: string, v: Value, sent: Value)
  {
    if v.Dict? && lib.isJson(k) then sent == Atom(Str(lib.dumps(v)))
    else FlattenJson(lib, k, v) == Flatten(k, sent) && (Leaf(v) || v == Null ==> sent == v)
  }

  lemma TopSentWellFormed(lib: Library, m: map<string, Value>)
    requires TopWellFormed(JsonCut(lib), m)
    ensures TopWellFormed(NO_CUT, SentEntries(lib, m, []))
  {
    var root: Path := [];
    forall k | k in m
      ensures SentEntries(lib, m, root)[k] == Null || WellFormed(NO_CUT, SentEntries(lib, m, root)[k], [Name(k)])
    {
      assert root + [Name(k)] == [Name(k)];
      if m[k] != Null {
        SentWellFormed(lib, m[k], [Name(k)]);
      }
    }
  }

  /** What is done with a top-level value is to flatten it as it is sent. */
  lemma TopLevel(lib: Library, m: map<string, Value>, k: string)
    requires k in m
    ensures IsSentAs(lib, k, m[k], SentEntries(lib, m, [])[k])
  {
    var p, v := [Name(k)], m[k];
    SoleLabel(k);
    assert [] + p == p;
    if !(v.Dict? && lib.isJson(k)) {
      SentShape(lib, v, p, Idx(0));
      forall f
        ensures f in FlattenJson(lib, k, v) <==> f in Flatten(k, Sent(lib, v, p))
      {
        FlattenJsonIsFlatten(lib, v, p, f);
      }
    }
  }

  /** A top-level key that is still to be done holds its own value and nothing else. */
  lemma StandsAlone(attributes: map<string, Value>, m: map<string, Value>, sent: map<string, Value>, todo: set<string>,
                    k: string)
    requires todo <= m.Keys && k in todo && PartlyFlat(attributes, m, sent, todo)
    ensures k in attributes && attributes[k] == m[k]
  {
    assert (k, m[k]).0 in todo;
  }

  /** The next top-level value can be replaced. */
  lemma NextTop(lib: Library, attributes: map<string, Value>, m: map<string, Value>, todo: set<string>, k: string)
    requires TopWellFormed(NO_CUT, SentEntries(lib, m, [])) && todo <= m.Keys && k in todo
    requires PartlyFlat(attributes, m, SentEntries(lib, m, []), todo)
    ensures k in attributes && attributes[k] == m[k] && IsSentAs(lib, k, m[k], SentEntries(lib, m, [])[k])
    ensures Functional(Flatten(k, SentEntries(lib, m, [])[k]))
  {
    TopLevel(lib, m, k);
    TopFunctional(k, SentEntries(lib, m, [])[k]);
    StandsAlone(attributes, m, SentEntries(lib, m, []), todo, k);
  }

  lemma FlatAtLast(attributes: map<string, Value>, m: map<string, Value>, sent: map<string, Value>)
    requires PartlyFlat(attributes, m, sent, {})
    ensures forall f: (string, Value) :: (f.0 in attributes && attributes[f.0] == f.1) <==> f in Flatten("", Dict(sent))
    ensures SPAN_KIND in attributes <==> SPAN_KIND in KeysIn(Flatten("", Dict(sent)))
  {
    forall f: (string, Value)
      ensures (exists k :: k in sent && f in Flatten(k, sent[k])) <==> f in Flatten("", Dict(sent))
    {
      if k :| k in sent && f in Flatten(k, sent[k]) {
        assert Join("", k) == k;
      }
    }
    if SPAN_KIND in attributes {
      assert (SPAN_KIND, attributes[SPAN_KIND]) in Flatten("", Dict(sent));
    }
  }

  /** The pairs carry exactly the attributes, each as its wire value, in any order. */
  ghost predicate Carries(kvs: seq<KeyValue>, attributes: map<string, Value>)
  {
    forall kv :: kv in kvs <==> kv.key in attributes && IsWire(attributes[kv.key], kv.value)
  }

  /** `_encode_attributes`; `None` where encoding a value raises. */
  method EncodeAttributes(attributes: map<string, Value>) returns (kvs: Option<seq<KeyValue>>)
    ensures kvs.None? <==> exists k :: k in attributes && !Encodable(attributes[k])
    ensures kvs.Some? ==> Carries(kvs.value, attributes) && |kvs.value| == |attributes|
  {
    var out: seq<KeyValue> := [];
    var todo := attributes.Keys;
    while todo != {}
      invariant todo <= attributes.Keys && |out| + |todo| == |attributes|
      invariant forall kv :: kv in out <==>
                  kv.key in attributes && kv.key !in todo && IsWire(attributes[kv.key], kv.value)
      invariant forall k :: k in attributes && k !in todo ==> Encodable(attributes[k])
      decreases todo
    {
      var k :| k in todo;
      var value := EncodeValue(attributes[k]);
      EncodesExactly(attributes[k]);
      if value.None? {
        return None;
      }
      out := out + [KeyValue(k, value.value)];
      todo := todo - {k};
    }
    return Some(out);
  }

  // ---------------------------------------------------------------- decoding a span's attributes

  predicate Truthy(v: Value)
  {
    match v
    case Null => false
    case Atom(Str(s)) => s != ""
    case Atom(Bool(b)) => b
    case Atom(Int(i)) => i != 0
    case Atom(Float(r)) => r != 0.0
    case Atom(Bytes(bytes)) => bytes != []
    case List(items) => items != []
    case Dict(entries) => entries != map[]
  }

  /** Token counts become integers where that is possible. */
  function Coerce(lib: Library, key: string, v: Value): Value
  {
    if key in TOKEN_COUNT_KEYS && lib.toInt(v).Some? then Atom(Int(lib.toInt(v).value)) else v
  }

  /** Values under JSON keys are read as JSON; values that read as empty are dropped. */
  function LoadJson(lib: Library, key: string, v: Value): Pairs
  {
    if lib.isJson(key) && lib.loads(v).Some? then
      var loaded := lib.loads(v).value;
      if Truthy(loaded) then [(key, loaded)] else []
    else [(key, v)]
  }

  function DecodePairs(lib: Library, kvs: seq<KeyValue>): Pairs
  {
    if kvs == [] then []
    else DecodePairs(lib, kvs[..|kvs| - 1])
         + var last := kvs[|kvs| - 1]; LoadJson(lib, last.key, Coerce(lib, last.key, DecodeValue(last.value)))
  }

  /** `get_attribute_value(attributes, "input.value")` */
  function InputValue(m: map<string, Value>): Value
  {
    if "input" in m && m["input"].Dict? && "value" in m["input"].entries then m["input"].entries["value"] else Null
  }

  /** An input value that is not text is replaced by its JSON text. */
  function PatchInput(lib: Library, m: map<string, Value>): map<string, Value>
  {
    var v := InputValue(m);
    if Truthy(v) && !(v.Atom? && v.scalar.Str?) then
      m["input" := Dict(m["input"].entries["value" := Atom(Str(lib.dumps(v)))]["mime_type" := JSON_MIME_TYPE])]
    else m
  }

  /** The attribute part of `decode_otlp_span`, for whatever keys arrive. */
  method DecodeAttributes(lib: Library, kvs: seq<KeyValue>) returns (m: map<string, Value>)
    ensures CanDecodeTo(lib, DecodePairs(lib, kvs), m)
    ensures AllAgree(TrieOf(LastWrites(DecodePairs(lib, kvs)))) ==>
              m == PatchInput(lib, Unflattened(LastWrites(DecodePairs(lib, kvs))))
  {
    var nested := Unflatten.Unflatten(DecodePairs(lib, kvs));
    m := PatchAttributes(lib, nested);
  }

  method PatchAttributes(lib: Library, nested: map<string, Value>) returns (m: map<string, Value>)
    ensures m == PatchInput(lib, nested)
  {
    m := nested;
    var v := InputValue(m);
    if Truthy(v) && !(v.Atom? && v.scalar.Str?) {
      var input := m["input"].entries;
      input := input["value" := Atom(Str(lib.dumps(v)))];
      input := input["mime_type" := JSON_MIME_TYPE];
      m := m["input" := Dict(input)];
    }
  }

  /** What the pairs are collected into in some order, patched. */
  ghost predicate CanDecodeTo(lib: Library, pairs: Pairs, m: map<string, Value>)
  {
    exists nested :: IsOutcome(TrieOf(LastWrites(pairs)), [], nested) && m == PatchInput(lib, nested)
  }

  lemma {:induction false} DecodePairsOf(lib: Library, kvs: seq<KeyValue>)
    ensures forall f :: f in DecodePairs(lib, kvs) <==>
                          exists kv :: kv in kvs
                            && f in LoadJson(lib, kv.key, Coerce(lib, kv.key, DecodeValue(kv.value)))
    decreases |kvs|
  {
    if kvs != [] {
      var init, last := kvs[..|kvs| - 1], kvs[|kvs| - 1];
      assert kvs == init + [last];
      DecodePairsOf(lib, init);
    }
  }

  // ---------------------------------------------------------------- what is made of any pair received

  /** A token count reads as an integer where it can, text under a JSON key as the value it stands for
      unless that is empty, and everything else as it is. */
  ghost predicate ReadsAs(lib: Library, key: string, v: Value, x: Value)
  {
    if key in TOKEN_COUNT_KEYS then
      if lib.toInt(v).Some? then x == Atom(Int(lib.toInt(v).value)) else x == v
    else if IsJsonKey(key) && lib.loads(v).Some? then x == lib.loads(v).value && Truthy(x)
    else x == v
  }

  /** What counts as empty. */
  lemma FalsyValues(v: Value)
    ensures !Truthy(v) <==> v in {Null, Atom(Str("")), Atom(Bool(false)), Atom(Int(0)), Atom(Float(0.0)),
                                  Atom(Bytes([])), List([]), Dict(map[])}
  {
  }

  lemma OnePairReads(lib: Library, key: string, v: Value)
    requires KnowsJsonKeys(lib)
    ensures var read := LoadJson(lib, key, Coerce(lib, key, v));
            && (forall x :: ReadsAs(lib, key, v, x) ==> read == [(key, x)])
            && ((forall x :: !ReadsAs(lib, key, v, x)) ==> read == [])
  {
    KnownCountsAreNotJson(lib);
    var read := LoadJson(lib, key, Coerce(lib, key, v));
    assert read != [] ==> ReadsAs(lib, key, v, read[0].1);
  }

  /** The pairs received count in their order: one more pair sets its path to what it reads as, whatever
      was there before, and nothing else; it does nothing where it reads as nothing. */
  lemma OneMoreReceived(lib: Library, kvs: seq<KeyValue>, kv: KeyValue, x: Value)
    requires KnowsJsonKeys(lib)
    ensures var before, after := LastWrites(DecodePairs(lib, kvs)), LastWrites(DecodePairs(lib, kvs + [kv]));
            && (ReadsAs(lib, kv.key, DecodeValue(kv.value), x) ==>
                  after == if x == Null then before else before[ParseKey(kv.key) := x])
            && ((forall y :: !ReadsAs(lib, kv.key, DecodeValue(kv.value), y)) ==> after == before)
  {
    var all := kvs + [kv];
    assert all[..|all| - 1] == kvs && all[|all| - 1] == kv;
    OnePairReads(lib, kv.key, DecodeValue(kv.value));
    var pairs := DecodePairs(lib, kvs);
    if ReadsAs(lib, kv.key, DecodeValue(kv.value), x) {
      assert (pairs + [(kv.key, x)])[..|pairs|] == pairs;
    }
    assert pairs + [] == pairs;
  }

  /** After decoding, the input value is text or empty: other values were replaced by their JSON text,
      marked as such, and nothing else was touched. */
  lemma InputIsText(lib: Library, m: map<string, Value>)
    ensures var p, v := PatchInput(lib, m), InputValue(m);
            && (!Truthy(v) || (v.Atom? && v.scalar.Str?) ==> p == m)
            && (Truthy(v) && !(v.Atom? && v.scalar.Str?) ==>
                  && p.Keys == m.Keys && (forall k :: k in m && k != "input" ==> p[k] == m[k])
                  && InputValue(p) == Atom(Str(lib.dumps(v)))
                  && p["input"].entries.Keys == m["input"].entries.Keys + {"mime_type"}
                  && p["input"].entries["mime_type"] == JSON_MIME_TYPE
                  && forall k :: k in m["input"].entries && k != "value" && k != "mime_type" ==>
                       p["input"].entries[k] == m["input"].entries[k])
  {
  }

  /** A key-value list reads as a dictionary; a repeated key keeps its last value. */
  lemma {:induction false} KvListReads(kvs: seq<KeyValue>, i: nat)
    requires i < |kvs| && forall j :: i < j < |kvs| ==> kvs[j].key != kvs[i].key
    ensures kvs[i].key in DecodeKvs(kvs) && DecodeKvs(kvs)[kvs[i].key] == DecodeValue(kvs[i].value)
    ensures forall k :: k in DecodeKvs(kvs) ==> exists j :: 0 <= j < |kvs| && kvs[j].key == k
    decreases |kvs|
  {
    var init := kvs[..|kvs| - 1];
    if i < |kvs| - 1 {
      KvListReads(init, i);
    }
    KvListKeys(kvs);
  }

  /** An unset value reads as nothing, and so do attributes that are sent without one. */
  lemma UnsetReadsAsNothing(lib: Library, kvs: seq<KeyValue>, key: string)
    requires KnowsJsonKeys(lib) && key !in TOKEN_COUNT_KEYS && !IsJsonKey(key)
    ensures DecodeValue(NotSet) == Null
    ensures LastWrites(DecodePairs(lib, kvs + [KeyValue(key, NotSet)])) == LastWrites(DecodePairs(lib, kvs))
  {
    OneMoreReceived(lib, kvs, KeyValue(key, NotSet), Null);
  }

  lemma {:induction false} KvListKeys(kvs: seq<KeyValue>)
    ensures forall k :: k in DecodeKvs(kvs) ==> exists j :: 0 <= j < |kvs| && kvs[j].key == k
    decreases |kvs|
  {
    if kvs != [] {
      KvListKeys(kvs[..|kvs| - 1]);
    }
  }

  // ---------------------------------------------------------------- the round trip

  /** What is sent for a leaf reads back as the leaf: JSON text of a dictionary under a JSON key loads
      as that dictionary, any other value under a JSON key does not load, and a token count is an
      integer that stays itself. */
  ghost predicate Survives(lib: Library, key: string, x: Value)
  {
    if x.Dict? then lib.loads(AsText(lib, x)) == Some(x)
    else
      && (lib.isJson(key) ==> lib.loads(x).None?)
      && (key in TOKEN_COUNT_KEYS ==> x.Atom? && x.scalar.Int? && lib.toInt(x) == Some(x.scalar.i))
  }

  /** The attributes the round trip is promised for. A missing span kind must have a place to go. */
  ghost predicate Sendable(lib: Library, m: map<string, Value>)
  {
    && WellFormedEntries(JsonCut(lib), m, [])
    && (HasKind(lib, m) || HasRoom(JsonCut(lib), Dict(m), [], KIND_NAMES))
    && (forall q, x :: LeafAt(JsonCut(lib), Dict(m), [], q, x) ==> Survives(lib, ShowPath(q), x))
    && var v := InputValue(m); (Truthy(v) ==> v.Atom? && v.scalar.Str?)
  }

  const KIND_NAMES := ["openinference", "span", "kind"]

  /** The attributes carry a span kind of their own. */
  ghost predicate HasKind(lib: Library, m: map<string, Value>)
  {
    SPAN_KIND in KeysIn(Flatten("", Dict(SentEntries(lib, m, []))))
  }

  /** The attributes with the span kind they are sent with. */
  ghost function WithKind(lib: Library, m: map<string, Value>, kind: string): map<string, Value>
    requires HasKind(lib, m) || HasRoom(JsonCut(lib), Dict(m), [], KIND_NAMES)
  {
    if HasKind(lib, m) then m else Put(Dict(m), KIND_NAMES, Atom(Str(kind))).entries
  }

  /** The keys that hold JSON text are the ones the source lists. */
  ghost predicate KnowsJsonKeys(lib: Library)
  {
    forall key :: lib.isJson(key) <==> IsJsonKey(key)
  }

  ghost predicate CountsAreNotJson(lib: Library)
  {
    forall key :: lib.isJson(key) ==> key !in TOKEN_COUNT_KEYS
  }

  lemma SuffixLastChar(s: string, suffix: string)
    requires suffix != "" && EndsWith(s, suffix)
    ensures s[|s| - 1] == suffix[|suffix| - 1]
  {
    assert s[|s| - |suffix|..][|suffix| - 1] == s[|s| - 1];
  }

  /** The text of a surviving leaf is read back as the leaf. */
  lemma ReadsBack(lib: Library, key: string, x: Value)
    requires Survives(lib, key, x)
    requires x.Dict? ==> lib.isJson(key) && key !in TOKEN_COUNT_KEYS && x.entries != map[]
    ensures LoadJson(lib, key, Coerce(lib, key, AsText(lib, x))) == [(key, x)]
  {
  }

  lemma LeafReadsBack(lib: Library, m: map<string, Value>, q: Path, x: Value)
    requires WellFormedEntries(JsonCut(lib), m, []) && CountsAreNotJson(lib)
    requires LeafAt(JsonCut(lib), Dict(m), [], q, x) && Survives(lib, ShowPath(q), x)
    ensures LoadJson(lib, ShowPath(q), Coerce(lib, ShowPath(q), AsText(lib, x))) == [(ShowPath(q), x)]
    ensures GoodPath(ParseKey(ShowPath(q)))
  {
    JsonCutsEntries(lib);
    TopLeafGood(JsonCut(lib), m, q, x);
    ParseShow(q);
    ReadsBack(lib, ShowPath(q), x);
  }

  /** The carried attributes are exactly the pairs sent. */
  lemma CarriesSent(sent: map<string, Value>, kind: string, attributes: map<string, Value>, kvs: seq<KeyValue>,
                    f: (string, Value))
    requires IsFlat(attributes, sent, kind)
    requires Carries(kvs, attributes) && forall k :: k in attributes ==> Encodable(attributes[k])
    ensures IsSentPair(sent, kind, f) <==> exists kv :: kv in kvs && f == (kv.key, DecodeValue(kv.value))
  {
    if IsSentPair(sent, kind, f) {
      DecodeEncoded(attributes[f.0]);
      EncodesExactly(attributes[f.0]);
      assert KeyValue(f.0, EncodeValue(attributes[f.0]).value) in kvs;
    }
    if kv :| kv in kvs && f == (kv.key, DecodeValue(kv.value)) {
      DecodeEncoded(attributes[kv.key]);
      EncodesExactly(attributes[kv.key]);
      assert IsSentPair(sent, kind, (kv.key, attributes[kv.key]));
    }
  }

  /** What is flattened are the texts of the leaves. */
  lemma SentPair(lib: Library, m: map<string, Value>, g: (string, Value)) returns (q: Path, x: Value)
    requires g in Flatten("", Dict(SentEntries(lib, m, [])))
    ensures LeafAt(JsonCut(lib), Dict(m), [], q, x) && g == (ShowPath(q), AsText(lib, x))
  {
    var root: Path := [];
    assert Sent(lib, Dict(m), root) == Dict(SentEntries(lib, m, root)) && ShowPath(root) == "";
    q := FlattenedIsLeaf(Sent(lib, Dict(m), root), root, g);
    SentLeaves(lib, Dict(m), root, q, g.1);
    x :| LeafAt(JsonCut(lib), Dict(m), root, q, x) && g.1 == AsText(lib, x);
  }

  lemma LeafIsSent(lib: Library, m: map<string, Value>, q: Path, x: Value)
    requires LeafAt(JsonCut(lib), Dict(m), [], q, x)
    ensures (ShowPath(q), AsText(lib, x)) in Flatten("", Dict(SentEntries(lib, m, [])))
  {
    var root: Path := [];
    assert Sent(lib, Dict(m), root) == Dict(SentEntries(lib, m, root)) && ShowPath(root) == "";
    SentLeaves(lib, Dict(m), root, q, AsText(lib, x));
    LeafIsFlattened(Sent(lib, Dict(m), root), root, q, AsText(lib, x));
  }

  // ---------------------------------------------------------------- the span kind that is added

  /** The added span kind is a leaf like any other. */
  ghost predicate IsAddedKind(lib: Library, m: map<string, Value>, kind: string, q: Path, x: Value)
  {
    !HasKind(lib, m) && q == NamesPath([], KIND_NAMES) && x == Atom(Str(kind))
  }

  lemma LeavesWithKind(lib: Library, m: map<string, Value>, kind: string, q: Path, x: Value)
    requires Sendable(lib, m)
    ensures LeafAt(JsonCut(lib), Dict(WithKind(lib, m, kind)), [], q, x) <==>
            LeafAt(JsonCut(lib), Dict(m), [], q, x) || IsAddedKind(lib, m, kind, q, x)
  {
    if !HasKind(lib, m) {
      PutLeaves(JsonCut(lib), Dict(m), [], KIND_NAMES, Atom(Str(kind)), q, x);
      assert Put(Dict(m), KIND_NAMES, Atom(Str(kind))).Dict?;
    }
  }

  lemma ShowNames(p: Path, names: seq<string>)
    requires |names| == 3
    ensures NamesPath(p, names) == p + [Name(names[0])] + [Name(names[1])] + [Name(names[2])]
    ensures ShowPath(NamesPath(p, names)) == Join(Join(Join(ShowPath(p), names[0]), names[1]), names[2])
  {
    var q, rest := p + [Name(names[0])], names[1..];
    assert NamesPath(p, names) == NamesPath(q, rest);
    assert NamesPath(q, rest) == NamesPath(q + [Name(rest[0])], rest[1..]);
    assert NamesPath(q + [Name(rest[0])], rest[1..]) == q + [Name(rest[0])] + [Name(rest[1..][0])];
    ShowPathLast(p, Name(names[0]));
    ShowPathLast(q, Name(names[1]));
    ShowPathLast(q + [Name(names[1])], Name(names[2]));
  }

  lemma KindKey()
    ensures ShowPath(NamesPath([], KIND_NAMES)) == SPAN_KIND
  {
    ShowNames([], KIND_NAMES);
    KindLiteral();
  }

  lemma KindLiteral()
    ensures "openinference" + "." + "span" + "." + "kind" == SPAN_KIND
  {
  }

  lemma SuffixEnds(key: string)
    requires IsJsonKey(key)
    ensures key != "" && (key[|key| - 1] == 'a' || key[|key| - 1] == 's')
  {
    var i :| 0 <= i < |JSON_KEYS| && EndsWith(key, JSON_KEYS[i]);
    SuffixLastChar(key, JSON_KEYS[i]);
  }

  lemma KindSurvives(lib: Library, kind: string)
    requires KnowsJsonKeys(lib)
    ensures Survives(lib, SPAN_KIND, Atom(Str(kind)))
  {
    if lib.isJson(SPAN_KIND) {
      SuffixEnds(SPAN_KIND);
    }
  }

  /** With the span kind the attributes are as good as before. */
  lemma WithKindSurvives(lib: Library, m: map<string, Value>, kind: string, q: Path, x: Value)
    requires KnowsJsonKeys(lib) && Sendable(lib, m) && LeafAt(JsonCut(lib), Dict(WithKind(lib, m, kind)), [], q, x)
    ensures Survives(lib, ShowPath(q), x)
  {
    LeavesWithKind(lib, m, kind, q, x);
    if IsAddedKind(lib, m, kind, q, x) {
      KindKey();
      KindSurvives(lib, kind);
    }
  }

  lemma WithKindWellFormed(lib: Library, m: map<string, Value>, kind: string)
    requires Sendable(lib, m)
    ensures WellFormedEntries(JsonCut(lib), WithKind(lib, m, kind), [])
    ensures InputValue(WithKind(lib, m, kind)) == InputValue(m)
  {
    if !HasKind(lib, m) {
      PutWellFormed(JsonCut(lib), Dict(m), [], KIND_NAMES, Atom(Str(kind)));
    }
  }

  /** The pairs sent are the texts of the leaves, the span kind included. */
  lemma SentIsLeaf(lib: Library, m: map<string, Value>, kind: string, g: (string, Value)) returns (q: Path, x: Value)
    requires Sendable(lib, m) && IsSentPair(SentEntries(lib, m, []), kind, g)
    ensures LeafAt(JsonCut(lib), Dict(WithKind(lib, m, kind)), [], q, x) && g == (ShowPath(q), AsText(lib, x))
  {
    if g in Flatten("", Dict(SentEntries(lib, m, []))) {
      q, x := SentPair(lib, m, g);
      LeavesWithKind(lib, m, kind, q, x);
    } else {
      q, x := KindIsLeaf(lib, m, kind);
    }
  }

  lemma KindIsLeaf(lib: Library, m: map<string, Value>, kind: string) returns (q: Path, x: Value)
    requires Sendable(lib, m) && !HasKind(lib, m)
    ensures LeafAt(JsonCut(lib), Dict(WithKind(lib, m, kind)), [], q, x)
    ensures (SPAN_KIND, Atom(Str(kind))) == (ShowPath(q), AsText(lib, x))
  {
    q, x := NamesPath([], KIND_NAMES), Atom(Str(kind));
    KindKey();
    LeavesWithKind(lib, m, kind, q, x);
  }

  lemma LeafIsSentPair(lib: Library, m: map<string, Value>, kind: string, q: Path, x: Value)
    requires Sendable(lib, m) && LeafAt(JsonCut(lib), Dict(WithKind(lib, m, kind)), [], q, x)
    ensures IsSentPair(SentEntries(lib, m, []), kind, (ShowPath(q), AsText(lib, x)))
  {
    LeavesWithKind(lib, m, kind, q, x);
    if LeafAt(JsonCut(lib), Dict(m), [], q, x) {
      LeafIsSent(lib, m, q, x);
    } else {
      KindKey();
    }
  }

  // ---------------------------------------------------------------- there and back

  /** The key-value pairs that a span's attributes are sent as. */
  ghost predicate AreSentAs(lib: Library, m: map<string, Value>, kind: string, attributes: map<string, Value>,
                           kvs: seq<KeyValue>)
  {
    && KnowsJsonKeys(lib) && CountsAreNotJson(lib) && Sendable(lib, m)
    && IsFlat(attributes, SentEntries(lib, m, []), kind)
    && Carries(kvs, attributes) && forall k :: k in attributes ==> Encodable(attributes[k])
  }

  /** Every leaf of the attributes with their span kind reads back. */
  lemma WithKindReadsBack(lib: Library, m: map<string, Value>, kind: string, q: Path, x: Value)
    requires KnowsJsonKeys(lib) && CountsAreNotJson(lib) && Sendable(lib, m)
    requires LeafAt(JsonCut(lib), Dict(WithKind(lib, m, kind)), [], q, x)
    ensures LoadJson(lib, ShowPath(q), Coerce(lib, ShowPath(q), AsText(lib, x))) == [(ShowPath(q), x)]
    ensures GoodPath(ParseKey(ShowPath(q)))
  {
    WithKindWellFormed(lib, m, kind);
    WithKindSurvives(lib, m, kind, q, x);
    LeafReadsBack(lib, WithKind(lib, m, kind), q, x);
  }

  lemma DecodedFromLeaf(lib: Library, m: map<string, Value>, kind: string, attributes: map<string, Value>,
                        kvs: seq<KeyValue>, f: (string, Value))
    requires AreSentAs(lib, m, kind, attributes, kvs) && f in DecodePairs(lib, kvs)
    ensures IsLeafPair(JsonCut(lib), WithKind(lib, m, kind), f) && GoodPath(ParseKey(f.0))
  {
    DecodePairsOf(lib, kvs);
    var kv :| kv in kvs && f in LoadJson(lib, kv.key, Coerce(lib, kv.key, DecodeValue(kv.value)));
    var g := (kv.key, DecodeValue(kv.value));
    CarriesSent(SentEntries(lib, m, []), kind, attributes, kvs, g);
    var q, x := SentIsLeaf(lib, m, kind, g);
    WithKindReadsBack(lib, m, kind, q, x);
  }

  lemma LeafIsDecoded(lib: Library, m: map<string, Value>, kind: string, attributes: map<string, Value>,
                      kvs: seq<KeyValue>, q: Path, x: Value)
    requires AreSentAs(lib, m, kind, attributes, kvs)
    requires LeafAt(JsonCut(lib), Dict(WithKind(lib, m, kind)), [], q, x)
    ensures (ShowPath(q), x) in DecodePairs(lib, kvs)
  {
    LeafIsSentPair(lib, m, kind, q, x);
    WithKindReadsBack(lib, m, kind, q, x);
    CarriesSent(SentEntries(lib, m, []), kind, attributes, kvs, (ShowPath(q), AsText(lib, x)));
    DecodePairsOf(lib, kvs);
  }

  /** The decoded pairs are exactly the leaves of the attributes with their span kind. */
  lemma DecodedIsLeafPair(lib: Library, m: map<string, Value>, kind: string, attributes: map<string, Value>,
                          kvs: seq<KeyValue>, f: (string, Value))
    requires AreSentAs(lib, m, kind, attributes, kvs)
    ensures f in DecodePairs(lib, kvs) <==> IsLeafPair(JsonCut(lib), WithKind(lib, m, kind), f)
    ensures f in DecodePairs(lib, kvs) ==> GoodPath(ParseKey(f.0))
  {
    if f in DecodePairs(lib, kvs) {
      DecodedFromLeaf(lib, m, kind, attributes, kvs, f);
    }
    if q, x :| LeafAt(JsonCut(lib), Dict(WithKind(lib, m, kind)), [], q, x) && f == (ShowPath(q), x) {
      LeafIsDecoded(lib, m, kind, attributes, kvs, q, x);
    }
  }

  lemma KnownCountsAreNotJson(lib: Library)
    requires KnowsJsonKeys(lib)
    ensures CountsAreNotJson(lib)
  {
    forall key | lib.isJson(key)
      ensures key !in TOKEN_COUNT_KEYS
    {
      SuffixEnds(key);
    }
  }

  /** Decoding what encoding sends gives the attributes back, dictionaries sent as JSON text included,
      together with the span kind where they had none. */
  lemma OtlpRoundTrip(lib: Library, m: map<string, Value>, kind: string, attributes: map<string, Value>,
                      kvs: seq<KeyValue>)
    requires KnowsJsonKeys(lib) && Sendable(lib, m)
    requires IsFlat(attributes, SentEntries(lib, m, []), kind)
    requires Carries(kvs, attributes)
    requires forall k :: k in attributes ==> Encodable(attributes[k])
    ensures NoEmptySegments(DecodePairs(lib, kvs))
    ensures PatchInput(lib, Unflattened(LastWrites(DecodePairs(lib, kvs)))) == WithKind(lib, m, kind)
  {
    KnownCountsAreNotJson(lib);
    JsonCutsEntries(lib);
    forall f
      ensures f in DecodePairs(lib, kvs) <==> IsLeafPair(JsonCut(lib), WithKind(lib, m, kind), f)
      ensures f in DecodePairs(lib, kvs) ==> GoodPath(ParseKey(f.0))
    {
      DecodedIsLeafPair(lib, m, kind, attributes, kvs, f);
    }
    WithKindWellFormed(lib, m, kind);
    UnflattenAfterLeaves(JsonCut(lib), WithKind(lib, m, kind), DecodePairs(lib, kvs));
  }

  lemma SendableTop(lib: Library, m: map<string, Value>)
    requires Sendable(lib, m)
    ensures TopWellFormed(JsonCut(lib), m)
  {
    forall k | k in m
      ensures GoodKey(k) && WellFormed(JsonCut(lib), m[k], [Name(k)])
    {
      OneLabel(Name(k));
    }
  }

  /** The text of some leaf holds something absent, a mapping, or an integer of more than 64 bits. */
  ghost predicate CannotSend(lib: Library, m: map<string, Value>)
  {
    exists q, x :: IsUnsendable(lib, m, q, x)
  }

  ghost predicate IsUnsendable(lib: Library, m: map<string, Value>, q: Path, x: Value)
  {
    LeafAt(JsonCut(lib), Dict(m), [], q, x) && !Encodable(AsText(lib, x))
  }

  lemma RaisingLeaf(lib: Library, m: map<string, Value>, kind: string, attributes: map<string, Value>, k: string)
    requires IsFlat(attributes, SentEntries(lib, m, []), kind)
    requires k in attributes && !Encodable(attributes[k])
    ensures CannotSend(lib, m)
  {
    assert IsSentPair(SentEntries(lib, m, []), kind, (k, attributes[k]));
    var q, x := SentPair(lib, m, (k, attributes[k]));
    assert IsUnsendable(lib, m, q, x);
  }

  lemma LeafRaises(lib: Library, m: map<string, Value>, kind: string, attributes: map<string, Value>, q: Path, x: Value)
    requires IsFlat(attributes, SentEntries(lib, m, []), kind) && IsUnsendable(lib, m, q, x)
    ensures ShowPath(q) in attributes && !Encodable(attributes[ShowPath(q)])
  {
    LeafIsSent(lib, m, q, x);
    assert IsSentPair(SentEntries(lib, m, []), kind, (ShowPath(q), AsText(lib, x)));
  }

  /** Encoding raises exactly when the text of some leaf cannot be encoded. */
  lemma RaisesExactly(lib: Library, m: map<string, Value>, kind: string, attributes: map<string, Value>)
    requires IsFlat(attributes, SentEntries(lib, m, []), kind)
    ensures (exists k :: k in attributes && !Encodable(attributes[k])) <==> CannotSend(lib, m)
  {
    if k :| k in attributes && !Encodable(attributes[k]) {
      RaisingLeaf(lib, m, kind, attributes, k);
    }
    if CannotSend(lib, m) {
      var q, x :| IsUnsendable(lib, m, q, x);
      LeafRaises(lib, m, kind, attributes, q, x);
    }
  }

  /** A span's attributes sent and received: `None` where a value cannot be encoded. */
  method SendAttributes(lib: Library, m: map<string, Value>, kind: string) returns (back: Option<map<string, Value>>)
    requires KnowsJsonKeys(lib) && Sendable(lib, m)
    ensures back.None? <==> CannotSend(lib, m)
    ensures back.Some? ==> back.value == WithKind(lib, m, kind)
  {
    SendableTop(lib, m);
    var attributes := FlatAttributes(lib, m, kind);
    RaisesExactly(lib, m, kind, attributes);
    var kvs := EncodeAttributes(attributes);
    if kvs.None? {
      return None;
    }
    OtlpRoundTrip(lib, m, kind, attributes, kvs.value);
    DeterminedWithoutEmptySegments(DecodePairs(lib, kvs.value));
    var received := DecodeAttributes(lib, kvs.value);
    back := Some(received);
  }
}
