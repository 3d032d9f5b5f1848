/** The array object: elements, a presence bitmap that exists only once there has been a
    hole, and write paths that grow, fill or cut both in place. */
module Arrays {
  import opened Wrappers
  import opened Values
  import opened Ordinary
  import opened ArrayModel
  import opened ArrayHistories
  import Objects

  /** A missing bitmap means that every element is present. */
  function Items(elems: seq<Value>, present: Option<seq<bool>>): (r: seq<Option<Value>>)
    requires present.Some? ==> |present.value| == |elems|
    ensures |r| == |elems|
    ensures forall i :: 0 <= i < |r| ==> r[i] == if present.Some? && !present.value[i] then None else Some(elems[i])
  {
    seq(|elems|, i requires 0 <= i < |elems| => if present.Some? && !present.value[i] then None else Some(elems[i]))
  }

  class ArrayValue {
    var elems: seq<Value>
    var present: Option<seq<bool>>
    var lengthWritable: bool
    var attrs: map<nat, PropAttrs>
    var nonExtensible: bool

    /** The bitmap is absent or as long as the elements, and a hole reads as undefined. */
    ghost predicate Valid()
      reads this
    {
      && (present.Some? ==> |present.value| == |elems|)
      && (present.Some? ==> forall i :: 0 <= i < |elems| && !present.value[i] ==> elems[i] == Undefined)
      && forall i :: i in attrs ==> attrs[i] != DEFAULT_ATTRS
    }

    ghost function Abs(): ArrayView
      requires Valid()
      reads this
    {
      ArrayView(Items(elems, present), lengthWritable, attrs, !nonExtensible)
    }

    constructor (elems: seq<Value>)
      ensures Valid() && Abs() == ArrayView(Items(elems, None), true, map[], true)
    {
      this.elems := elems;
      present := None;
      lengthWritable := true;
      attrs := map[];
      nonExtensible := false;
    }

    predicate IsPresent(i: nat)
      requires Valid() && i < |elems|
      reads this
      ensures IsPresent(i) <==> Abs().items[i].Some?
    {
      present.None? || present.value[i]
    }

    /** Turns "all present" into a bitmap; nothing observable changes. */
    method MaterializePresent()
      requires Valid()
      modifies this`present
      ensures Valid() && present.Some? && Abs() == old(Abs())
    {
      if present.None? {
        present := Some(seq(|elems|, _ => true));
      }
      assert Abs().items == old(Abs()).items;
    }

    /** Appends holes until the length is at least n. */
    method ExtendTo(n: nat)
      requires Valid() && present.Some?
      modifies this`elems, this`present
      ensures Valid() && present.Some? && |elems| >= n && Abs() == old(Abs()).(items := Grown(old(Abs()).items, n))
    {
      ghost var before := Abs().items;
      while |elems| < n
        invariant Valid() && present.Some?
        invariant |before| <= |elems| && (|elems| <= n || elems == old(elems))
        invariant Abs().items == before + Holes(|elems| - |before|)
      {
        elems := elems + [Undefined];
        present := Some(present.value + [false]);
        assert Abs().items == before + Holes(|elems| - |before|);
      }
      assert before + Holes(0) == before;
    }

    method PutAt(i: nat, value: Value)
      requires Valid() && i < |elems|
      modifies this`elems, this`present
      ensures Valid() && Abs() == old(Abs()).(items := old(Abs()).items[i := Some(value)])
    {
      elems := elems[i := value];
      if present.Some? {
        present := Some(present.value[i := true]);
      }
      assert Abs().items == old(Abs()).items[i := Some(value)];
    }

    /** The index branch of ordinary assignment. */
    method SetIndex(i: nat, value: Value)
      requires Valid()
      modifies this`elems, this`present
      ensures Valid() && Abs() == SetAt(old(Abs()), i, value)
    {
      if i < |elems| {
        if i in attrs && !attrs[i].writable {
          return;
        }
      } else if nonExtensible || !lengthWritable {
        return;
      }
      ghost var before := Abs().items;
      if |elems| <= i {
        MaterializePresent();
        ExtendTo(i + 1);
        assert Grown(before, i + 1)[i := Some(value)] == Grown(before, i) + [Some(value)];
      }
      PutAt(i, value);
    }

    method DeleteIndex(i: nat) returns (ok: bool)
      requires Valid()
      modifies this`elems, this`present, this`attrs
      ensures Valid() && (Abs(), ok) == DeleteAt(old(Abs()), i)
    {
      if i >= |elems| {
        return true;
      }
      if !IsPresent(i) {
        return true;
      }
      if i in attrs && !attrs[i].configurable {
        return false;
      }
      MaterializePresent();
      elems := elems[i := Undefined];
      present := Some(present.value[i := false]);
      attrs := attrs - {i};
      assert Abs().items == old(Abs()).items[i := None];
      return true;
    }

    /** Drops every element from n on, if none of them is fixed. */
    method CutTo(n: nat) returns (ok: bool)
      requires Valid() && n < |elems|
      modifies this`elems, this`present
      ensures Valid() && ok == !exists i :: n <= i < |old(elems)| && Fixed(old(Abs()), i)
      ensures Abs() == if ok then old(Abs()).(items := old(Abs()).items[..n]) else old(Abs())
    {
      for i := n to |elems|
        invariant forall j :: n <= j < i ==> !Fixed(Abs(), j)
      {
        if IsPresent(i) {
          if i in attrs && !attrs[i].configurable {
            assert Fixed(Abs(), i);
            return false;
          }
        }
      }
      elems := elems[..n];
      if present.Some? {
        present := Some(present.value[..n]);
      }
      assert Abs().items == old(Abs()).items[..n];
      return true;
    }

    /** Assignment to `length`; `n` is the value as a length, if it is one. */
    method SetLengthTo(n: Option<nat>) returns (out: Outcome)
      requires Valid()
      modifies this`elems, this`present
      ensures Valid() && (Abs(), out) == SetLength(old(Abs()), n)
    {
      if !lengthWritable {
        return Defined;
      }
      if n.None? || n.value > MAX_LENGTH {
        return TypeError;
      }
      if n.value < |elems| {
        var ok := CutTo(n.value);
        return if ok then Defined else TypeError;
      }
      MaterializePresent();
      ExtendTo(n.value);
      return Defined;
    }

    // ----- redefinition ------------------------------------------------------------------

    method SetEntryAt(i: nat, a: PropAttrs)
      requires Valid()
      modifies this`attrs
      ensures Valid() && Abs() == old(Abs()).(attrs := SetEntry(old(Abs()).attrs, i, a))
    {
      if a == DEFAULT_ATTRS {
        attrs := attrs - {i};
      } else {
        attrs := attrs[i := a];
      }
    }

    method DefineIndex(i: nat, d: Descriptor) returns (out: Outcome)
      requires Valid() && NoSentinel(d)
      modifies this`elems, this`present, this`attrs
      ensures Valid() && (Abs(), out) == DefineAt(old(Abs()), i, d)
    {
      var wellFormed := Objects.ObjectValue.CheckFields(d);
      if !wellFormed {
        return TypeError;
      }
      var value := if i < |elems| && IsPresent(i) then Some(elems[i]) else None;
      if value.None? && (nonExtensible || (i >= |elems| && !lengthWritable)) {
        return Rejected;
      }
      var cur := if i in attrs then attrs[i] else DEFAULT_ATTRS;
      assert CurrentAt(Abs(), i) == if value.Some? then Some(Slot(value.value, cur)) else None;
      if value.Some? && !cur.configurable {
        var allowed := Objects.ObjectValue.MayRedefine(value.value, cur, d);
        if !allowed {
          return Rejected;
        }
      }
      var eff, stored := Objects.ObjectValue.Merge(value, cur, d);
      var newValue := if stored.Some? then stored.value else value.value;
      StoreAt(i, newValue);
      SetEntryAt(i, eff);
      return Defined;
    }

    /** Grows the array to reach the index, then fills it. */
    method StoreAt(i: nat, value: Value)
      requires Valid()
      modifies this`elems, this`present
      ensures Valid() && Abs() == old(Abs()).(items := Grown(old(Abs()).items, i + 1)[i := Some(value)])
    {
      if |elems| <= i {
        MaterializePresent();
        ExtendTo(i + 1);
      }
      PutAt(i, value);
    }

    /** Redefinition of `length`; `n` is the descriptor's value as a length, if it is one. */
    method DefineLengthAs(d: Descriptor, n: Option<nat>) returns (out: Outcome)
      requires Valid()
      modifies this`elems, this`present, this`lengthWritable
      ensures Valid() && (Abs(), out) == DefineLength(old(Abs()), d, n)
    {
      if d.getter.Some? || d.setter.Some? || d.enumerable == Some(true) || d.configurable == Some(true) {
        return Rejected;
      }
      if !lengthWritable && d.writable == Some(true) {
        return Rejected;
      }
      if d.value.Some? {
        if n.None? || n.value > MAX_LENGTH {
          return RangeError;
        }
        if !lengthWritable && n.value != |elems| {
          return Rejected;
        }
        if n.value < |elems| {
          var ok := CutTo(n.value);
          if !ok {
            return Rejected;
          }
        } else {
          MaterializePresent();
          ExtendTo(n.value);
        }
      }
      if d.writable.Some? {
        lengthWritable := d.writable.value;
      }
      return Defined;
    }

    /** seal and freeze of an array: every present index, then `length`; never refused. */
    method SetIntegrityLevel(frozen: bool) returns (out: Outcome)
      requires Valid()
      modifies this
      ensures Valid() && Abs() == ArrayHistories.SetIntegrity(old(Abs()), frozen) && out == Defined
    {
      nonExtensible := true;
      out := RestrictPresent(frozen);
      if out != Defined {
        return;
      }
      var lengthDescriptor := if frozen then LENGTH_FREEZE else LENGTH_SEAL;
      out := DefineLengthAs(lengthDescriptor, None);
    }

    /** Every present index, in order. */
    method RestrictPresent(frozen: bool) returns (out: Outcome)
      requires Valid()
      modifies this`elems, this`present, this`attrs
      ensures Valid() && Abs() == RestrictBelow(old(Abs()), |old(elems)|, frozen) && out == Defined
    {
      ghost var v := Abs();
      for i := 0 to |elems|
        invariant Valid() && Abs() == RestrictBelow(v, i, frozen) && |elems| == |v.items|
      {
        RestrictBelowMeaning(v, i, frozen);
        if IsPresent(i) {
          out := RestrictIndex(i, frozen);
          if out != Defined {
            return;
          }
        }
      }
      out := Defined;
    }

    method RestrictIndex(i: nat, frozen: bool) returns (out: Outcome)
      requires Valid() && i < |elems| && IsPresent(i)
      modifies this`elems, this`present, this`attrs
      ensures Valid() && |elems| == |old(elems)| && out == Defined
      ensures Abs() == DefineAt(old(Abs()), i, IntegrityAt(old(Abs()), i, frozen)).0
    {
      RestrictAt(Abs(), i, frozen);
      var d := Descriptor(None, None, None, Some(false), None, None);
      if frozen && !elems[i].Accessor? {
        d := d.(writable := Some(false));
      }
      assert d == IntegrityAt(Abs(), i, frozen);
      out := DefineIndex(i, d);
      assert Abs().items == old(Abs()).items;
    }

    // ----- appending and bulk writes ---------------------------------------------------

    method Append(value: Value)
      requires Valid()
      modifies this`elems, this`present
      ensures Valid() && Abs() == ArrayModel.Append(old(Abs()), value)
    {
      elems := elems + [value];
      if present.Some? {
        present := Some(present.value + [true]);
      }
      assert Abs().items == old(Abs()).items + [Some(value)];
    }

    method AppendValues(vs: seq<Value>)
      requires Valid()
      modifies this`elems, this`present
      ensures Valid() && Abs() == AppendAll(old(Abs()), vs)
    {
      AppendAllItems(Abs(), vs);
      if |vs| == 0 {
        return;
      }
      if |vs| == 1 {
        Append(vs[0]);
        assert vs[..0] == [];
        return;
      }
      elems := elems + vs;
      if present.Some? {
        present := Some(present.value + seq(|vs|, _ => true));
      }
      assert Abs().items == AppendAll(old(Abs()), vs).items;
    }

    method AppendNumberRange(from: Float, count: int)
      requires Valid()
      modifies this`elems, this`present
      ensures Valid() && Abs() == if count <= 0 then old(Abs()) else AppendAll(old(Abs()), Numbers(from, count))
    {
      if count <= 0 {
        return;
      }
      ghost var v := Abs();
      assert Numbers(from, 0) == [];
      for i := 0 to count
        invariant Valid() && Abs() == AppendAll(v, Numbers(from, i))
      {
        elems := elems + [NumberAt(from, i)];
        if present.Some? {
          present := Some(present.value + [true]);
        }
        assert Numbers(from, i + 1)[..i] == Numbers(from, i);
        assert Abs().items == AppendAll(v, Numbers(from, i)).items + [Some(NumberAt(from, i))];
      }
    }

    predicate CanAppend(count: int)
      requires Valid()
      reads this
      ensures CanAppend(count) <==> ArrayModel.CanAppend(Abs(), count)
    {
      if count < 0 || |elems| + count > MAX_LENGTH then false else !nonExtensible && lengthWritable
    }

    method CanWriteRange(start: int, count: int) returns (ok: bool)
      requires Valid()
      ensures ok == ArrayModel.CanWriteRange(Abs(), start, count)
    {
      if start < 0 || count < 0 || start + count > MAX_LENGTH {
        return false;
      }
      var i := start;
      while i < start + count && i < |elems|
        invariant start <= i <= start + count
        invariant forall j :: start <= j < i && j < |elems| ==>
          var item := Abs().items[j];
          if item.Some? then !item.value.Accessor? && AttrAt(Abs(), j).writable else Abs().extensible
      {
        if IsPresent(i) {
          if elems[i].Accessor? || (i in attrs && !attrs[i].writable) {
            return false;
          }
        } else if nonExtensible {
          return false;
        }
        i := i + 1;
      }
      return start + count <= |elems| || CanAppend(start + count - |elems|);
    }

    /** Holes up to the length n, all at once. */
    method ExtendAtOnce(n: nat)
      requires Valid()
      modifies this`elems, this`present
      ensures Valid() && |elems| >= n && Abs() == old(Abs()).(items := Grown(old(Abs()).items, n))
    {
      if n > |elems| {
        MaterializePresent();
        var more := n - |elems|;
        elems := elems + seq(more, _ => Undefined);
        present := Some(present.value + seq(more, _ => false));
      }
      assert Abs().items == Grown(old(Abs()).items, n);
    }

    /** Writes a run of numbers; `start` may lie past the end. */
    method WriteNumberRange(start: nat, from: Float, count: int)
      requires Valid()
      modifies this`elems, this`present
      ensures Valid() && Abs() == if count <= 0 then old(Abs()) else WriteRange(old(Abs()), start, from, count)
    {
      if count <= 0 {
        return;
      }
      var end := start + count;
      ExtendAtOnce(end);
      ghost var v := Abs();
      for i := 0 to count
        invariant Valid() && |elems| >= end
        invariant Abs() == v.(items := Abs().items) && |Abs().items| == |v.items|
        invariant forall j :: 0 <= j < |Abs().items| ==>
          Abs().items[j] == if start <= j < start + i then Some(NumberAt(from, j - start)) else v.items[j]
      {
        PutAt(start + i, NumberAt(from, i));
      }
      assert Abs().items == WriteRange(old(Abs()), start, from, count).items;
    }

    // ----- histories -----------------------------------------------------------------------

    /** Whether an entry is left over for one of the next indices. */
    predicate HasTrailingIndexAttrs(count: nat)
      reads `attrs, `elems
    {
      exists i :: i in attrs && |elems| <= i < |elems| + count
    }

    /** Array.prototype.push: one assignment each if an entry is left over in their way,
        all at once otherwise. False is a TypeError. */
    method PushAll(xs: seq<Value>) returns (ok: bool)
      requires Valid()
      modifies this`elems, this`present
      ensures Valid() && ok == (xs == [] || ArrayModel.CanAppend(old(Abs()), |xs|))
      ensures Abs() == Step(old(Abs()), Push(xs))
    {
      if |xs| == 0 {
        return true;
      }
      if !CanAppend(|xs|) {
        return false;
      }
      ghost var v := Abs();
      if HasTrailingIndexAttrs(|xs|) {
        for k := 0 to |xs|
          invariant Valid() && Abs() == AppendAll(v, xs[..k])
        {
          AppendAllItems(v, xs[..k]);
          assert xs[..k + 1][..k] == xs[..k];
          SetIndex(|elems|, xs[k]);
        }
        assert xs[..|xs|] == xs;
      } else {
        AppendValues(xs);
      }
      return true;
    }

    /** The bulk paths, behind their guards. */
    method ExecuteBulk(op: ArrayOp)
      requires Valid() && (op.Push? || op.BulkWrite?)
      modifies this`elems, this`present
      ensures Valid() && Abs() == Step(old(Abs()), op)
    {
      match op {
        case Push(xs) =>
          var _ := PushAll(xs);
        case BulkWrite(start, from, count) =>
          var ok := CanWriteRange(start, count);
          if ok {
            WriteNumberRange(start, from, count);
          }
      }
    }

    /** One operation of the language. */
    method Execute(op: ArrayOp)
      requires Valid() && Language(op)
      modifies this
      ensures Valid() && Abs() == Step(old(Abs()), op)
    {
      match op {
        case AssignIndex(i, x) =>
          SetIndex(i, x);
        case AssignLength(n) =>
          var _ := SetLengthTo(n);
        case RemoveIndex(i) =>
          var _ := DeleteIndex(i);
        case RedefineIndex(i, d) =>
          var _ := DefineIndex(i, d);
        case RedefineLength(d, n) =>
          var _ := DefineLengthAs(d, n);
        case PreventExtensions =>
          nonExtensible := true;
        case Restrict(frozen) =>
          var _ := SetIntegrityLevel(frozen);
        case _ =>
          ExecuteBulk(op);
      }
    }

    /** Whatever is done to an array, bitmap and all, is what the operations on its view do. */
    method RunAll(ops: seq<ArrayOp>)
      requires Valid() && forall op :: op in ops ==> Language(op)
      modifies this
      ensures Valid() && Abs() == Run(old(Abs()), ops)
    {
      assert ops[..0] == [];
      for k := 0 to |ops|
        invariant Valid() && Abs() == Run(old(Abs()), ops[..k])
      {
        assert ops[k] in ops && ops[..k + 1][..k] == ops[..k];
        Execute(ops[k]);
      }
      assert ops[..|ops|] == ops;
    }
  }

  /** An array from its creation on. */
  method RunFromScratch(elems: seq<Value>, ops: seq<ArrayOp>) returns (a: ArrayValue)
    requires forall op :: op in ops ==> Language(op)
    ensures fresh(a) && a.Valid() && a.Abs() == Run(ArrayView(Items(elems, None), true, map[], true), ops)
  {
    a := new ArrayValue(elems);
    a.RunAll(ops);
  }
}
