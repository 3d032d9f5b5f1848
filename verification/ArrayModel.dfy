/** Arrays as values: a sequence of elements and holes, the writability of `length`, and
    the attribute entries of index keys. An entry can outlive its element when the length
    shrinks; that is what makes the bulk paths delicate. */
module ArrayModel {
  import opened Wrappers
  import opened Values
  import opened Ordinary

  const MAX_LENGTH := 0xFFFF_FFFF

  datatype ArrayView = ArrayView(items: seq<Option<Value>>, lengthWritable: bool,
                                 attrs: map<nat, PropAttrs>, extensible: bool)

  predicate Absent(v: ArrayView, i: nat) {
    i >= |v.items| || v.items[i].None?
  }

  function AttrAt(v: ArrayView, i: nat): PropAttrs {
    if i in v.attrs then v.attrs[i] else DEFAULT_ATTRS
  }

  function Holes(n: nat): seq<Option<Value>> {
    seq(n, _ => None)
  }

  /** At least `n` long; what is new are holes. */
  function Grown(items: seq<Option<Value>>, n: nat): seq<Option<Value>> {
    if n <= |items| then items else items + Holes(n - |items|)
  }

  predicate CanGrow(v: ArrayView) {
    v.extensible && v.lengthWritable
  }

  /** Assignment to an index. A hole below the length is filled without asking whether the
      array is extensible. */
  function SetAt(v: ArrayView, i: nat, x: Value): ArrayView {
    if i < |v.items| then
      if AttrAt(v, i).writable then v.(items := v.items[i := Some(x)]) else v
    else if CanGrow(v) then v.(items := Grown(v.items, i) + [Some(x)])
    else v
  }

  function DeleteAt(v: ArrayView, i: nat): (ArrayView, bool) {
    if i >= |v.items| || v.items[i].None? then (v, true)
    else if !AttrAt(v, i).configurable then (v, false)
    else (v.(items := v.items[i := None], attrs := v.attrs - {i}), true)
  }

  /** `Fixed(v, i)`: an element that may not be removed. */
  predicate Fixed(v: ArrayView, i: nat) {
    i < |v.items| && v.items[i].Some? && !AttrAt(v, i).configurable
  }

  /** Assignment to `length`; the outcome is a TypeError for a non-length and for a cut
      through a fixed element, in which case nothing is removed. */
  function SetLength(v: ArrayView, n: Option<nat>): (ArrayView, Outcome) {
    if !v.lengthWritable then (v, Defined)
    else if n.None? || n.value > MAX_LENGTH then (v, TypeError)
    else if n.value < |v.items| then
      if exists i :: n.value <= i < |v.items| && Fixed(v, i) then (v, TypeError)
      else (v.(items := v.items[..n.value]), Defined)
    else (v.(items := Grown(v.items, n.value)), Defined)
  }

  function Append(v: ArrayView, x: Value): ArrayView {
    v.(items := v.items + [Some(x)])
  }

  function AppendAll(v: ArrayView, xs: seq<Value>): ArrayView
    decreases |xs|
  {
    if xs == [] then v else Append(AppendAll(v, xs[..|xs| - 1]), xs[|xs| - 1])
  }

  predicate CanAppend(v: ArrayView, count: int) {
    count >= 0 && |v.items| + count <= MAX_LENGTH && CanGrow(v)
  }

  /** The engine's guard for a bulk write to [start, start + count). */
  predicate CanWriteRange(v: ArrayView, start: int, count: int) {
    && 0 <= start && 0 <= count && start + count <= MAX_LENGTH
    && (forall i :: start <= i < start + count && i < |v.items| ==>
          if v.items[i].Some? then !v.items[i].value.Accessor? && AttrAt(v, i).writable else v.extensible)
    && (start + count <= |v.items| || CanAppend(v, start + count - |v.items|))
  }

  function NumberAt(from: Float, k: nat): Value {
    Number(FloatPlus(from, k))
  }

  /** The reference: one assignment per index, of a variable incremented in between. */
  function WriteOneByOne(v: ArrayView, start: nat, from: Float, count: nat): ArrayView {
    if count == 0 then v
    else SetAt(WriteOneByOne(v, start, from, count - 1), start + count - 1, Number(Counted(from, count - 1)))
  }

  /** The bulk write: extend with holes, then fill the range. */
  function WriteRange(v: ArrayView, start: nat, from: Float, count: nat): ArrayView {
    if count == 0 then v
    else
      var grown := Grown(v.items, start + count);
      v.(items := seq(|grown|, i requires 0 <= i < |grown| =>
                    if start <= i < start + count then Some(NumberAt(from, i - start)) else grown[i]))
  }

  /** A hole whose entry, left over from a removed element, forbids writing. */
  predicate ReadOnlyHole(v: ArrayView, i: nat) {
    i < |v.items| && v.items[i].None? && !AttrAt(v, i).writable
  }

  // ----- bulk writes against single ones --------------------------------------------

  /** Where no read-only hole is met, each single write leaves its number. */
  lemma {:induction false} SingleWrites(v: ArrayView, start: nat, from: Float, count: nat, k: nat)
    requires k <= count && CanWriteRange(v, start, count)
    requires forall i :: start <= i < start + k ==> !ReadOnlyHole(v, i)
    ensures var w := WriteOneByOne(v, start, from, k);
      && w == v.(items := w.items)
      && |w.items| == (if k == 0 || start + k <= |v.items| then |v.items| else start + k)
      && forall i :: 0 <= i < |w.items| ==>
           w.items[i] == if start <= i < start + k then Some(Number(Counted(from, i - start)))
                         else if i < |v.items| then v.items[i] else None
    decreases k
  {
    if k > 0 {
      SingleWrites(v, start, from, count, k - 1);
      var i := start + k - 1;
      if i < |v.items| {
        assert !ReadOnlyHole(v, i);
        assert v.items[i].Some? ==> AttrAt(v, i).writable;
      }
    }
  }

  /** Single writes never touch a read-only index below the length. */
  lemma {:induction false} ReadOnlyStays(v: ArrayView, start: nat, from: Float, k: nat, i: nat)
    requires i < |v.items| && !AttrAt(v, i).writable
    ensures var w := WriteOneByOne(v, start, from, k);
      |w.items| >= |v.items| && w.items[i] == v.items[i] && w.attrs == v.attrs
    decreases k
  {
    if k > 0 {
      ReadOnlyStays(v, start, from, k - 1, i);
    }
  }

  /** What the bulk write leaves: its numbers in the range, holes up to it, all else as it was. */
  lemma BulkWrites(v: ArrayView, start: nat, from: Float, count: nat)
    ensures var w := WriteRange(v, start, from, count);
      && w == v.(items := w.items)
      && |w.items| == (if count == 0 || start + count <= |v.items| then |v.items| else start + count)
      && forall i :: 0 <= i < |w.items| ==>
           w.items[i] == if start <= i < start + count then Some(Number(FloatAdd(from, Finite((i - start) as real))))
                         else if i < |v.items| then v.items[i] else None
  {
    if count > 0 {
      var w, grown := WriteRange(v, start, from, count), Grown(v.items, start + count);
      forall i | 0 <= i < |w.items|
        ensures w.items[i] == if start <= i < start + count then Some(NumberAt(from, i - start)) else grown[i] {}
    }
  }

  /** When the guard passes, the bulk write is the sequence of single writes exactly when no
      hole of the range carries a read-only entry and the numbers do not start at -0. */
  lemma BulkWriteExact(v: ArrayView, start: nat, from: Float, count: nat)
    requires CanWriteRange(v, start, count)
    ensures WriteRange(v, start, from, count) == WriteOneByOne(v, start, from, count) <==>
      && (forall i :: start <= i < start + count ==> !ReadOnlyHole(v, i))
      && (count == 0 || from != NegZero)
  {
    var w, u := WriteRange(v, start, from, count), WriteOneByOne(v, start, from, count);
    BulkWrites(v, start, from, count);
    if i :| start <= i < start + count && ReadOnlyHole(v, i) {
      ReadOnlyStays(v, start, from, count, i);
      assert w.items[i].Some?;
    } else {
      SingleWrites(v, start, from, count, count);
      if count > 0 && from == NegZero {
        assert w.items[start] != u.items[start];
      } else {
        SameNumbers(start, from, count, w.items, u.items);
      }
    }
  }

  lemma SameNumbers(start: nat, from: Float, count: nat, w: seq<Option<Value>>, u: seq<Option<Value>>)
    requires |w| == |u| && (count == 0 || from != NegZero)
    requires forall i :: 0 <= i < |w| ==>
      if start <= i < start + count then
        w[i] == Some(Number(FloatPlus(from, i - start))) && u[i] == Some(Number(Counted(from, i - start)))
      else w[i] == u[i]
    ensures w == u
  {
    forall i | 0 <= i < |w| ensures w[i] == u[i] {
      if start <= i < start + count { PlusIsCountingExactly(from, i - start); }
    }
  }

  lemma {:induction false} AppendAllItems(v: ArrayView, xs: seq<Value>)
    ensures AppendAll(v, xs) == v.(items := v.items + seq(|xs|, i requires 0 <= i < |xs| => Some(xs[i])))
    decreases |xs|
  {
    if xs != [] {
      var n := |xs| - 1;
      AppendAllItems(v, xs[..n]);
      assert AppendAll(v, xs).items == v.items + seq(|xs|, i requires 0 <= i < |xs| => Some(xs[i]));
    }
  }

  /** Appending is assigning just past the end, once appending is allowed, unless the numbers
      start at -0. */
  lemma AppendAllIsSetting(v: ArrayView, from: Float, count: nat)
    requires CanAppend(v, count)
    ensures AppendAll(v, Numbers(from, count)) == WriteOneByOne(v, |v.items|, from, count) <==>
            count == 0 || from != NegZero
    ensures |AppendAll(v, Numbers(from, count)).items| == |v.items| + count
  {
    AppendAllItems(v, Numbers(from, count));
    assert WriteRange(v, |v.items|, from, count).items == AppendAll(v, Numbers(from, count)).items;
    BulkWriteExact(v, |v.items|, from, count);
  }

  function Numbers(from: Float, count: nat): seq<Value> {
    seq(count, i requires 0 <= i < count => NumberAt(from, i))
  }
}
