/**
 Type-directed rendering of capsule values as JSON data, and the strict rebuild from it.
 Types are what the annotations of the capsule's frozen dataclasses can say.
 */
module ContextCapsules {
  import opened Wrappers

  /** A field type; records and enums carry their class name. */
  datatype Type =
    | BoolType | IntType | FloatType | StrType
    | EnumType(className: string, members: set<string>)
    | OptionalType(of: Type)
    | TupleType(item: Type)
    | DictType(value: Type)
    | RecordType(recordName: string, fields: map<string, Type>)

  /** A Python value; floats are reals here. */
  datatype Value =
    | NoneValue | BoolValue(b: bool) | IntValue(i: int) | FloatValue(x: real) | StrValue(s: string)
    | EnumValue(enumName: string, member: string)
    | TupleValue(items: seq<Value>)
    | DictValue(entries: map<string, Value>)
    | RecordValue(className: string, attributes: map<string, Value>)

  /** Decoded JSON. */
  datatype Json =
    | Null | Bool(b: bool) | Int(i: int) | Float(x: real) | Str(s: string)
    | List(elements: seq<Json>) | Object(members: map<string, Json>)

  // ----- _render_value -----

  function Render(v: Value): Json
    decreases v
  {
    match v
    case NoneValue => Null
    case BoolValue(b) => Bool(b)
    case IntValue(i) => Int(i)
    case FloatValue(x) => Float(x)
    case StrValue(s) => Str(s)
    case EnumValue(_, member) => Str(member)
    case TupleValue(items) => List(RenderAll(items))
    case DictValue(entries) => Object(map k | k in entries :: Render(entries[k]))
    case RecordValue(_, attributes) => Object(map k | k in attributes :: Render(attributes[k]))
  }

  function RenderAll(vs: seq<Value>): (r: seq<Json>)
    ensures |r| == |vs| && forall i :: 0 <= i < |vs| ==> r[i] == Render(vs[i])
    decreases vs
  {
    if |vs| == 0 then [] else [Render(vs[0])] + RenderAll(vs[1..])
  }

  // ----- _rebuild_value -----

  /** The source's exceptions are one kind of error here; which of several mismatches is reported first is left open. */
  function Rebuild(t: Type, raw: Json): Result<Value>
    decreases raw, t
  {
    if t.OptionalType? then (if raw.Null? then Ok(NoneValue) else Rebuild(t.of, raw))
    else if raw.Null? then Err(CapsuleMismatch)
    else
      match t
      case TupleType(item) =>
        if !raw.List? then Err(CapsuleMismatch)
        else
          var items := RebuildAll(item, raw.elements);
          if items.Err? then Err(CapsuleMismatch) else Ok(TupleValue(items.value))
      case DictType(value) =>
        if !raw.Object? || exists k :: k in raw.members && Rebuild(value, raw.members[k]).Err? then Err(CapsuleMismatch)
        else Ok(DictValue(map k | k in raw.members :: Rebuild(value, raw.members[k]).value))
      case RecordType(name, fields) =>
        if !raw.Object? || raw.members.Keys != fields.Keys then Err(CapsuleMismatch)
        else if exists k :: k in raw.members && Rebuild(fields[k], raw.members[k]).Err? then Err(CapsuleMismatch)
        else Ok(RecordValue(name, map k | k in raw.members :: Rebuild(fields[k], raw.members[k]).value))
      case EnumType(name, members) => if raw.Str? && raw.s in members then Ok(EnumValue(name, raw.s))
                                      else Err(CapsuleMismatch)
      case BoolType => if raw.Bool? then Ok(BoolValue(raw.b)) else Err(CapsuleMismatch)
      case IntType => if raw.Int? then Ok(IntValue(raw.i)) else Err(CapsuleMismatch)
      case FloatType =>
        if raw.Float? then Ok(FloatValue(raw.x)) else if raw.Int? then Ok(FloatValue(raw.i as real))
          else Err(CapsuleMismatch)
      case StrType => if raw.Str? then Ok(StrValue(raw.s)) else Err(CapsuleMismatch)
  }

  function RebuildAll(t: Type, raws: seq<Json>): (r: Result<seq<Value>>)
    ensures r.Ok? <==> forall i :: 0 <= i < |raws| ==> Rebuild(t, raws[i]).Ok?
    ensures r.Ok? ==> |r.value| == |raws| && forall i :: 0 <= i < |raws| ==> r.value[i] == Rebuild(t, raws[i]).value
    decreases raws, t
  {
    if |raws| == 0 then Ok([])
    else
      var rest := RebuildAll(t, raws[1..]);
      assert forall i :: 1 <= i < |raws| ==> raws[i] == raws[1..][i - 1];
      if Rebuild(t, raws[0]).Err? then Err(CapsuleMismatch)
      else if rest.Err? then Err(CapsuleMismatch)
      else Ok([Rebuild(t, raws[0]).value] + rest.value)
  }

  // ----- Values of a type -----

  ghost predicate HasType(t: Type, v: Value)
    decreases v, t
  {
    match t
    case OptionalType(of) => v.NoneValue? || HasType(of, v)
    case BoolType => v.BoolValue?
    case IntType => v.IntValue?
    case FloatType => v.FloatValue?
    case StrType => v.StrValue?
    case EnumType(name, members) => v.EnumValue? && v.enumName == name && v.member in members
    case TupleType(item) => v.TupleValue? && forall i :: 0 <= i < |v.items| ==> HasType(item, v.items[i])
    case DictType(value) => v.DictValue? && forall k :: k in v.entries ==> HasType(value, v.entries[k])
    case RecordType(name, fields) =>
      v.RecordValue? && v.className == name && v.attributes.Keys == fields.Keys
      && forall k :: k in v.attributes ==> HasType(fields[k], v.attributes[k])
  }

  /** Only an absent value renders as null. */
  lemma NullIsNone(v: Value)
    ensures Render(v).Null? <==> v.NoneValue?
  {
  }

  /** Whatever is rendered is rebuilt: nested records, enums, optionals, tuples and dicts. */
  lemma {:induction false} RenderThenRebuild(t: Type, v: Value)
    requires HasType(t, v)
    ensures Rebuild(t, Render(v)) == Ok(v)
    decreases v, t
  {
    NullIsNone(v);
    match t
    case OptionalType(of) =>
      if !v.NoneValue? {
        RenderThenRebuild(of, v);
      }
    case TupleType(item) =>
      forall i | 0 <= i < |v.items| ensures Rebuild(item, Render(v.items[i])) == Ok(v.items[i]) {
        RenderThenRebuild(item, v.items[i]);
      }
      var raws := RenderAll(v.items);
      assert forall i :: 0 <= i < |raws| ==> Rebuild(item, raws[i]) == Ok(v.items[i]);
      assert RebuildAll(item, raws).value == v.items;
    case DictType(value) =>
      forall k | k in v.entries ensures Rebuild(value, Render(v.entries[k])) == Ok(v.entries[k]) {
        RenderThenRebuild(value, v.entries[k]);
      }
      EntriesRoundTrip(value, v.entries);
    case RecordType(name, fields) =>
      forall k | k in v.attributes ensures Rebuild(fields[k], Render(v.attributes[k])) == Ok(v.attributes[k]) {
        RenderThenRebuild(fields[k], v.attributes[k]);
      }
      AttributesRoundTrip(name, fields, v.attributes);
    case _ =>
  }

  lemma {:induction false} RebuiltEntries(value: Type, members: map<string, Json>, entries: map<string, Value>)
    requires members.Keys == entries.Keys
    requires forall k :: k in members ==> Rebuild(value, members[k]) == Ok(entries[k])
    ensures Rebuild(DictType(value), Object(members)) == Ok(DictValue(entries))
  {
    var r := Rebuild(DictType(value), Object(members));
    assert r.Ok? && r.value.DictValue? && r.value.entries.Keys == entries.Keys;
    assert r.value.entries == entries;
  }

  lemma {:induction false} EntriesRoundTrip(value: Type, entries: map<string, Value>)
    requires forall k :: k in entries ==> Rebuild(value, Render(entries[k])) == Ok(entries[k])
    ensures Rebuild(DictType(value), Render(DictValue(entries))) == Ok(DictValue(entries))
  {
    RebuiltEntries(value, map k | k in entries :: Render(entries[k]), entries);
  }

  lemma {:induction false} RebuiltAttributes(name: string, fields: map<string, Type>, members: map<string, Json>,
      attributes: map<string, Value>)
    requires members.Keys == attributes.Keys == fields.Keys
    requires forall k :: k in members ==> Rebuild(fields[k], members[k]) == Ok(attributes[k])
    ensures Rebuild(RecordType(name, fields), Object(members)) == Ok(RecordValue(name, attributes))
  {
    var r := Rebuild(RecordType(name, fields), Object(members));
    assert r.Ok? && r.value.RecordValue? && r.value.attributes.Keys == attributes.Keys;
    assert r.value.attributes == attributes;
  }

  lemma {:induction false} AttributesRoundTrip(name: string, fields: map<string, Type>, attributes: map<string, Value>)
    requires attributes.Keys == fields.Keys
    requires forall k :: k in attributes ==> Rebuild(fields[k], Render(attributes[k])) == Ok(attributes[k])
    ensures Rebuild(RecordType(name, fields), Render(RecordValue(name, attributes)))
            == Ok(RecordValue(name, attributes))
  {
    RebuiltAttributes(name, fields, map k | k in attributes :: Render(attributes[k]), attributes);
  }

  /** Equal up to reading an integer where a float is expected. */
  ghost predicate SameUpToWidening(a: Json, b: Json)
    decreases a
  {
    match a
    case Int(i) => b == Int(i) || b == Float(i as real)
    case List(elements) =>
      b.List? && |b.elements| == |elements|
      && forall i :: 0 <= i < |elements| ==> SameUpToWidening(elements[i], b.elements[i])
    case Object(members) =>
      b.Object? && b.members.Keys == members.Keys
      && forall k :: k in members ==> SameUpToWidening(members[k], b.members[k])
    case _ => b == a
  }

  /** Whatever is accepted has the expected type and renders back to the same JSON, up to widened numbers. */
  lemma {:induction false} RebuildThenRender(t: Type, raw: Json)
    requires Rebuild(t, raw).Ok?
    ensures HasType(t, Rebuild(t, raw).value) && SameUpToWidening(raw, Render(Rebuild(t, raw).value))
    decreases raw, t
  {
    var v := Rebuild(t, raw).value;
    match t
    case OptionalType(of) =>
      if !raw.Null? {
        RebuildThenRender(of, raw);
      }
    case TupleType(item) =>
      forall i | 0 <= i < |raw.elements|
        ensures HasType(item, v.items[i]) && SameUpToWidening(raw.elements[i], Render(v.items[i]))
      {
        RebuildThenRender(item, raw.elements[i]);
      }
    case DictType(value) =>
      forall k | k in raw.members
        ensures k in v.entries && HasType(value, v.entries[k]) && SameUpToWidening(raw.members[k], Render(v.entries[k]))
      {
        RebuildThenRender(value, raw.members[k]);
      }
    case RecordType(name, fields) =>
      forall k | k in raw.members
        ensures k in v.attributes && HasType(fields[k], v.attributes[k])
                && SameUpToWidening(raw.members[k], Render(v.attributes[k]))
      {
        RebuildThenRender(fields[k], raw.members[k]);
      }
    case _ =>
  }

  lemma {:induction false} WidenedList(raw: Json, items: seq<Value>, rendered: seq<Json>)
    requires rendered == RenderAll(items) && SameUpToWidening(raw, List(rendered))
    ensures raw.List? && |raw.elements| == |items|
    ensures forall i :: 0 <= i < |items| ==> SameUpToWidening(raw.elements[i], Render(items[i]))
  {
    forall i | 0 <= i < |items| ensures SameUpToWidening(raw.elements[i], Render(items[i])) {
      assert rendered[i] == Render(items[i]);
    }
  }

  lemma {:induction false} WidenedObject(raw: Json, entries: map<string, Value>)
    requires SameUpToWidening(raw, Object(map k | k in entries :: Render(entries[k])))
    ensures raw.Object? && raw.members.Keys == entries.Keys
    ensures forall k :: k in entries ==> SameUpToWidening(raw.members[k], Render(entries[k]))
  {
    var rendered := map k | k in entries :: Render(entries[k]);
    assert rendered.Keys == entries.Keys;
    assert forall k :: k in entries ==> rendered[k] == Render(entries[k]);
  }

  lemma {:induction false} AcceptedTuple(item: Type, raw: Json)
    requires raw.List? && forall i :: 0 <= i < |raw.elements| ==> Rebuild(item, raw.elements[i]).Ok?
    ensures Rebuild(TupleType(item), raw).Ok?
  {
  }

  lemma {:induction false} AcceptedDict(value: Type, raw: Json)
    requires raw.Object? && forall k :: k in raw.members ==> Rebuild(value, raw.members[k]).Ok?
    ensures Rebuild(DictType(value), raw).Ok?
  {
  }

  lemma {:induction false} AcceptedRecord(name: string, fields: map<string, Type>, raw: Json)
    requires raw.Object? && raw.members.Keys == fields.Keys
    requires forall k :: k in raw.members ==> Rebuild(fields[k], raw.members[k]).Ok?
    ensures Rebuild(RecordType(name, fields), raw).Ok?
  {
  }

  lemma {:induction false} WidenedIsAccepted(t: Type, raw: Json, v: Value)
    requires HasType(t, v) && SameUpToWidening(raw, Render(v))
    ensures Rebuild(t, raw).Ok?
    decreases v, t
  {
    match t
    case OptionalType(of) =>
      NullIsNone(v);
      if !raw.Null? {
        WidenedIsAccepted(of, raw, v);
      }
    case TupleType(item) =>
      WidenedList(raw, v.items, RenderAll(v.items));
      forall i | 0 <= i < |raw.elements| ensures Rebuild(item, raw.elements[i]).Ok? {
        WidenedIsAccepted(item, raw.elements[i], v.items[i]);
      }
      AcceptedTuple(item, raw);
    case DictType(value) =>
      WidenedObject(raw, v.entries);
      forall k | k in raw.members ensures Rebuild(value, raw.members[k]).Ok? {
        WidenedIsAccepted(value, raw.members[k], v.entries[k]);
      }
      AcceptedDict(value, raw);
    case RecordType(name, fields) =>
      WidenedObject(raw, v.attributes);
      forall k | k in raw.members ensures Rebuild(fields[k], raw.members[k]).Ok? {
        WidenedIsAccepted(fields[k], raw.members[k], v.attributes[k]);
      }
      AcceptedRecord(name, fields, raw);
    case _ =>
  }

  /** The value is of the type and renders to this, up to widened numbers. */
  ghost predicate StandsFor(t: Type, raw: Json, v: Value) { HasType(t, v) && SameUpToWidening(raw, Render(v)) }

  /** What is accepted is exactly what some value of the type stands for. */
  lemma AcceptedIff(t: Type, raw: Json)
    ensures Rebuild(t, raw).Ok? <==> exists v :: StandsFor(t, raw, v)
  {
    if Rebuild(t, raw).Ok? {
      RebuildThenRender(t, raw);
      assert StandsFor(t, raw, Rebuild(t, raw).value);
    }
    if v :| StandsFor(t, raw, v) {
      WidenedIsAccepted(t, raw, v);
    }
  }

  /** Rendering determines the value among those of one type. */
  lemma RenderInjective(t: Type, v: Value, w: Value)
    requires HasType(t, v) && HasType(t, w) && Render(v) == Render(w)
    ensures v == w
  {
    RenderThenRebuild(t, v);
    RenderThenRebuild(t, w);
  }
}
