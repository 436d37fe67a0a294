/**
 Option declarations, their value readers and the mutable option objects.

 C++ value types are modelled by `Value`; a reader is the partial function that a
 reader object computes, `None` standing for any thrown exception.
 */
module Options {
  import opened Wrappers

  datatype Value = IntValue(n: int) | StringValue(s: string) | OtherValue(typeName: string, repr: nat)

  datatype Type = IntType | StringType | OtherType(name: string)

  function TypeOf(v: Value): Type {
    match v
    case IntValue(_) => IntType
    case StringValue(_) => StringType
    case OtherValue(t, _) => OtherType(t)
  }

  /** `default_reader`, `range_reader` and `oneof_reader`; `cast` is the lexical
      cast to the option's type and `le` that type's `<=`. */
  datatype Reader =
    | Default(cast: string -> Option<Value>)
    | Range(cast: string -> Option<Value>, le: (Value, Value) -> bool, low: Value, high: Value)
    | OneOf(cast: string -> Option<Value>, alt: seq<Value>)

  /** What a reader promises of every value it lets through. */
  predicate Admits(r: Reader, v: Value) {
    match r
    case Default(_) => true
    case Range(_, le, low, high) => le(low, v) && le(v, high)
    case OneOf(_, alt) => v in alt
  }

  function Read(r: Reader, s: string): (v: Option<Value>)
    ensures v.Some? ==> v == r.cast(s)
    ensures r.Default? ==> v == r.cast(s)
    ensures r.Range? ==> (v.Some? <==> r.cast(s).Some? && r.le(r.low, r.cast(s).value) && r.le(r.cast(s).value, r.high))
    ensures r.OneOf? ==> (v.Some? <==> r.cast(s).Some? && r.cast(s).value in r.alt)
  {
    match r.cast(s)
    case None => None
    case Some(x) => if !Admits(r, x) then None else Some(x)
  }

  datatype Decl =
    | Flag(name: string, short: char, desc: string)
    | Valued(name: string, short: char, desc: string, need: bool, def: Value, reader: Reader)

  /** The value state of one option object. */
  datatype Slot = Slot(decl: Decl, has: bool, actual: Value)

  /** Flags carry no value; their `actual` is a fixed placeholder. */
  function Initial(d: Decl): Slot {
    Slot(d, false, if d.Valued? then d.def else StringValue(""))
  }

  predicate MissingIn(s: Slot) {
    s.decl.Valued? && s.decl.need && !s.has
  }

  /** The two setters as functions: the slot afterwards and whether they accept. */
  function SetNone(s: Slot): (Slot, bool) {
    if s.decl.Flag? then (s.(has := true), true) else (s, false)
  }

  function SetTo(s: Slot, value: string): (Slot, bool) {
    if s.decl.Flag? then (s, false)
    else match Read(s.decl.reader, value)
      case None => (s, false)
      case Some(x) => (s.(has := true, actual := x), true)
  }

  class CmdOption {
    const decl: Decl
    var has: bool
    var actual: Value

    ghost function State(): Slot
      reads this
    {
      Slot(decl, has, actual)
    }

    constructor (d: Decl)
      ensures decl == d && State() == Initial(d)
    {
      decl := d;
      has := false;
      actual := if d.Valued? then d.def else StringValue("");
    }

    method Set() returns (ok: bool)
      modifies this
      ensures (State(), ok) == SetNone(old(State()))
      ensures ok <==> decl.Flag?
      ensures if ok then has && actual == old(actual) else State() == old(State())
    {
      if decl.Flag? {
        has := true;
        return true;
      }
      return false;
    }

    method SetValue(value: string) returns (ok: bool)
      modifies this
      ensures (State(), ok) == SetTo(old(State()), value)
      ensures ok <==> decl.Valued? && Read(decl.reader, value).Some?
      ensures if ok then has && Some(actual) == Read(decl.reader, value) else State() == old(State())
    {
      if decl.Flag? {
        return false;
      }
      match Read(decl.reader, value)
      case None =>
        return false;
      case Some(x) =>
        actual := x;
        has := true;
        return true;
    }

    method IsValid() returns (ok: bool)
      ensures ok <==> !MissingIn(State())
      ensures ok <==> (decl.Valued? && decl.need ==> has)
    {
      return decl.Flag? || !(decl.need && !has);
    }
  }
}
