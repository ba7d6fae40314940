/** The growable string of TinyXML: shared empty representation, reallocation on demand, amortised appends. */
module TinyString {

  // ----- The string as a value

  /** The text, the capacity, and how many characters all reallocations so far have copied. */
  datatype Value = Value(text: string, capacity: nat, copied: nat) {
    predicate Fits() {
      |text| <= capacity
    }
  }

  datatype Op = Assign(text: string) | Append(text: string) | Reserve(capacity: nat) | Clear

  const EMPTY := Value("", 0, 0)

  function AfterReserve(v: Value, capacity: nat): Value {
    if capacity > v.capacity then Value(v.text, capacity, v.copied + |v.text|) else v
  }

  function After(v: Value, op: Op): Value {
    match op
    case Assign(text) =>
      if |text| > v.capacity || v.capacity > 3 * (|text| + 8) then Value(text, |text|, v.copied) else v.(text := text)
    case Append(text) =>
      var size := |v.text| + |text|;
      (if size > v.capacity then AfterReserve(v, size + v.capacity) else v).(text := v.text + text)
    case Reserve(capacity) => AfterReserve(v, capacity)
    case Clear => Value("", 0, v.copied)
  }

  function Run(v: Value, ops: seq<Op>): Value {
    if ops == [] then v else After(Run(v, ops[..|ops| - 1]), ops[|ops| - 1])
  }

  /** What a run means for an immutable string that knows nothing of buffers. */
  function Meaning(text: string, ops: seq<Op>): string {
    if ops == [] then text
    else
      var before := Meaning(text, ops[..|ops| - 1]);
      match ops[|ops| - 1]
      case Assign(t) => t
      case Append(t) => before + t
      case Reserve(_) => before
      case Clear => ""
  }

  /** Whatever was reallocated on the way, the text is that of the immutable string, and it fits. */
  lemma {:induction false} RunRefinesString(v: Value, ops: seq<Op>)
    requires v.Fits()
    ensures Run(v, ops).text == Meaning(v.text, ops) && Run(v, ops).Fits()
  {
    if ops == [] {
    } else {
      RunRefinesString(v, ops[..|ops| - 1]);
    }
  }

  /** Assigning leaves at most three times the space the text needs, plus a little. */
  lemma AssignBoundsSlack(v: Value, text: string)
    ensures |text| <= After(v, Assign(text)).capacity <= 3 * (|text| + 8)
  {
  }

  predicate OnlyAppends(ops: seq<Op>) {
    forall i :: 0 <= i < |ops| ==> ops[i].Append?
  }

  /** One append: what it copies is paid for by the growth of the capacity, which stays below twice the length. */
  lemma AppendIsPaidFor(v: Value, text: string)
    requires v.Fits()
    ensures
      var w := After(v, Append(text));
      && w.copied - v.copied <= w.capacity - v.capacity
      && (w.capacity == v.capacity || w.capacity < 2 * |w.text|)
  {
  }

  /** A run of appends copies in all no more than the capacity grew by, and so less than twice the final length. */
  lemma {:induction false} AppendsAreAmortised(v: Value, ops: seq<Op>)
    requires v.Fits() && OnlyAppends(ops)
    ensures
      var w := Run(v, ops);
      && w.Fits() && |v.text| <= |w.text| && v.capacity <= w.capacity
      && w.copied - v.copied <= w.capacity - v.capacity
      && (w.capacity == v.capacity || w.capacity < 2 * |w.text|)
  {
    if ops == [] {
    } else {
      var before := ops[..|ops| - 1];
      AppendsAreAmortised(v, before);
      assert ops[|ops| - 1].Append?;
      AppendIsPaidFor(Run(v, before), ops[|ops| - 1].text);
    }
  }

  /** From the empty string: reallocations copy at most the final capacity, at most twice the final length. */
  lemma AppendsFromEmpty(ops: seq<Op>)
    requires OnlyAppends(ops)
    ensures Run(EMPTY, ops).copied <= Run(EMPTY, ops).capacity <= 2 * |Run(EMPTY, ops).text|
  {
    AppendsAreAmortised(EMPTY, ops);
  }

  // ----- The string in memory

  /** A heap block: a header with the size and the capacity, and room for the capacity and a terminating NUL. */
  class Rep {
    var size: nat
    var capacity: nat
    const str: array<char>

    ghost predicate Valid()
      reads this, str
    {
      size <= capacity && str.Length == capacity + 1 && str[size] == '\0'
    }

    constructor (size: nat, capacity: nat)
      requires size <= capacity
      ensures this.size == size && this.capacity == capacity && Valid() && fresh(str)
    {
      this.size, this.capacity := size, capacity;
      var s := new char[capacity + 1];
      s[size] := '\0';
      str := s;
    }
  }

  class TiXmlString {
    var rep: Rep
    /** The representation shared by all empty strings. */
    const nullRep: Rep
    ghost var copied: nat

    /** The shared representation still has its initial values. */
    ghost predicate NullIntact()
      reads nullRep, nullRep.str
    {
      nullRep.Valid() && nullRep.capacity == 0
    }

    /** A string owns its block, unless it uses the shared one. */
    ghost predicate Valid()
      reads this, rep, rep.str, nullRep, nullRep.str
    {
      && rep.Valid() && NullIntact()
      && (rep != nullRep ==> rep.capacity > 0 && rep.str != nullRep.str)
    }

    ghost function View(): Value
      reads this, rep, rep.str
      requires rep.size <= rep.str.Length
    {
      Value(rep.str[..rep.size], rep.capacity, copied)
    }

    constructor (nullRep: Rep)
      requires nullRep.Valid() && nullRep.capacity == 0
      ensures Valid() && this.nullRep == nullRep && View() == EMPTY && rep == nullRep
    {
      this.nullRep := nullRep;
      rep := nullRep;
      copied := 0;
    }

    /** A new block, or the shared one when no capacity is asked for. */
    method Init(size: nat, capacity: nat)
      requires size <= capacity && NullIntact()
      modifies this`rep
      ensures Valid() && rep.size == size && rep.capacity == capacity
      ensures if capacity > 0 then fresh(rep) && fresh(rep.str) else rep == nullRep
    {
      if capacity > 0 {
        rep := new Rep(size, capacity);
      } else {
        rep := nullRep;
      }
    }

    method SetSize(size: nat)
      requires size <= rep.capacity && rep.str.Length == rep.capacity + 1
      modifies rep`size, rep.str
      ensures rep.Valid() && rep.size == size
      ensures forall i :: 0 <= i < rep.str.Length && i != size ==> rep.str[i] == old(rep.str[i])
    {
      rep.size := size;
      rep.str[size] := '\0';
    }

    method CopyTo(start: nat, text: string)
      requires start + |text| <= rep.str.Length
      modifies if text == "" then {} else {rep.str}
      ensures forall i :: 0 <= i < |text| ==> rep.str[start + i] == text[i]
      ensures forall i :: 0 <= i < rep.str.Length && !(start <= i < start + |text|) ==> rep.str[i] == old(rep.str[i])
    {
      forall i | 0 <= i < |text| {
        rep.str[start + i] := text[i];
      }
    }

    method Reserve(capacity: nat)
      requires Valid()
      modifies this
      ensures Valid() && View() == AfterReserve(old(View()), capacity)
      ensures rep == old(rep) || (fresh(rep) && fresh(rep.str))
    {
      if capacity > rep.capacity {
        var size, data := rep.size, rep.str[..rep.size];
        Init(size, capacity);
        CopyTo(0, data);
        copied := copied + size;
        assert rep.str[..size] == data;
      }
    }

    method Assign(text: string)
      requires Valid()
      modifies this, rep, rep.str
      ensures Valid() && View() == After(old(View()), Op.Assign(text))
      ensures rep == old(rep) || rep == nullRep || (fresh(rep) && fresh(rep.str))
    {
      var cap := rep.capacity;
      if |text| > cap || cap > 3 * (|text| + 8) {
        Init(|text|, |text|);
        CopyTo(0, text);
      } else {
        CopyTo(0, text);
        SetSize(|text|);
      }
      assert rep.str[..|text|] == text;
    }

    method Append(text: string)
      requires Valid()
      modifies this, rep, rep.str
      ensures Valid() && View() == After(old(View()), Op.Append(text))
      ensures rep == old(rep) || (fresh(rep) && fresh(rep.str))
    {
      ghost var before := View().text;
      var size := rep.size;
      var newSize := size + |text|;
      if newSize > rep.capacity {
        Reserve(newSize + rep.capacity);
      }
      assert rep.str[..size] == before;
      CopyTo(size, text);
      SetSize(newSize);
      assert rep.str[..newSize] == before + text;
    }

    method Clear()
      requires Valid()
      modifies this
      ensures Valid() && View() == After(old(View()), Op.Clear) && rep == nullRep
    {
      Init(0, 0);
    }
  }

  /** The sum of two strings is built in one block of exactly the size it needs. */
  method Concat(a: TiXmlString, b: TiXmlString) returns (r: TiXmlString)
    requires a.Valid() && b.Valid() && a.nullRep == b.nullRep
    modifies a.nullRep, a.nullRep.str
    ensures r.Valid() && fresh(r) && a.Valid() && b.Valid()
    ensures r.View().text == old(a.View().text + b.View().text) && r.View().capacity == |r.View().text| && r.copied == 0
    ensures a.View() == old(a.View()) && b.View() == old(b.View())
  {
    var left, right := a.rep.str[..a.rep.size], b.rep.str[..b.rep.size];
    r := new TiXmlString(a.nullRep);
    r.Reserve(|left| + |right|);
    assert r.View() == Value("", |left| + |right|, 0);
    r.Append(left);
    assert r.View() == Value(left, |left| + |right|, 0);
    r.Append(right);
  }
}
