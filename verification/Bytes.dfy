/** Bytes, byte strings and the two search primitives the library builds on. */
module Bytes {

  type Byte = b: int | 0 <= b < 256

  datatype Option<+T> = None | Some(value: T)

  const CR: Byte := 13
  const LF: Byte := 10

  /** The concatenation of a list of byte strings. */
  function Flatten(parts: seq<seq<Byte>>): seq<Byte> {
    if parts == [] then [] else parts[0] + Flatten(parts[1..])
  }

  lemma Associate<T>(a: seq<T>, b: seq<T>, c: seq<T>)
    ensures (a + b) + c == a + (b + c)
  {
  }

  lemma FirstThenRest<T>(x: seq<T>, y: seq<T>)
    requires x != []
    ensures [x[0]] + (x[1..] + y) == x + y
  {
  }

  lemma MoveFront<T>(x: seq<T>, y: seq<T>, n: nat)
    requires n <= |y|
    ensures x + y[..n] + y[n..] == x + y
    ensures x + y[..n] + [] + y[n..] == x + [] + y
  {
    assert y[..n] + y[n..] == y;
  }

  lemma {:induction false} FlattenAppend(xs: seq<seq<Byte>>, ys: seq<seq<Byte>>)
    ensures Flatten(xs + ys) == Flatten(xs) + Flatten(ys)
  {
    if xs == [] {
      assert xs + ys == ys;
    } else {
      FlattenAppend(xs[1..], ys);
      assert (xs + ys)[0] == xs[0] && (xs + ys)[1..] == xs[1..] + ys;
      Associate(xs[0], Flatten(xs[1..]), Flatten(ys));
    }
  }

  lemma FlattenSnoc(xs: seq<seq<Byte>>, x: seq<Byte>)
    ensures Flatten(xs + [x]) == Flatten(xs) + x
  {
    FlattenAppend(xs, [x]);
    assert Flatten([x]) == x + Flatten([]);
  }

  lemma FlattenLast(xs: seq<seq<Byte>>)
    requires xs != []
    ensures Flatten(xs) == Flatten(xs[..|xs| - 1]) + xs[|xs| - 1]
  {
    var k := |xs| - 1;
    assert xs[..k] + [xs[k]] == xs;
    FlattenSnoc(xs[..k], xs[k]);
  }

  /** A line terminator starts at position `i`. */
  predicate CrlfAt(s: seq<Byte>, i: int) {
    0 <= i < |s| - 1 && s[i] == 13 && s[i + 1] == 10
  }

  /** The position of the first line terminator at or after `from`. */
  function CrlfFrom(s: seq<Byte>, from: nat): (r: Option<nat>)
    ensures r.None? ==> forall j :: from <= j ==> !CrlfAt(s, j)
    ensures r.Some? ==> from <= r.value && CrlfAt(s, r.value) && forall j :: from <= j < r.value ==> !CrlfAt(s, j)
    decreases |s| - from
  {
    if |s| <= from then None
    else if CrlfAt(s, from) then Some(from)
    else CrlfFrom(s, from + 1)
  }

  function FindCrlf(s: seq<Byte>): (r: Option<nat>)
    ensures r.None? ==> forall j :: 0 <= j ==> !CrlfAt(s, j)
    ensures r.Some? ==> CrlfAt(s, r.value) && forall j :: 0 <= j < r.value ==> !CrlfAt(s, j)
  {
    CrlfFrom(s, 0)
  }

  /** More input never changes the first terminator that was already there. */
  lemma FindCrlfStable(s: seq<Byte>, more: seq<Byte>)
    requires FindCrlf(s).Some?
    ensures FindCrlf(s + more) == FindCrlf(s)
  {
    var k := FindCrlf(s).value;
    assert CrlfAt(s + more, k);
    assert forall j :: 0 <= j < k ==> CrlfAt(s + more, j) == CrlfAt(s, j);
  }

  /** The first terminator of a line without CR followed by CR LF is the one printed. */
  lemma FindCrlfAfterLine(line: seq<Byte>, rest: seq<Byte>)
    requires CR !in line
    ensures FindCrlf(line + [CR, LF] + rest) == Some(|line|)
  {
    var s := line + [CR, LF] + rest;
    assert CrlfAt(s, |line|);
    assert forall j :: 0 <= j < |line| ==> s[j] in line;
  }

  /** `std::find`: the first position of `b` in `s[from..end]`, or `end`. */
  function Find(s: seq<Byte>, from: nat, end: nat, b: Byte): (r: nat)
    requires from <= end <= |s|
    ensures from <= r <= end
    ensures r < end ==> s[r] == b
    ensures forall j :: from <= j < r ==> s[j] != b
    decreases end - from
  {
    if from == end || s[from] == b then from else Find(s, from + 1, end, b)
  }
}
