/**
  The Array methods of the PLCBus script: the `sum` it adds to Array
  (plcbus.rb lines 7-11, `inject { |sum, x| sum + x }`), `include?`, and
  `pack('C*')`, which writes each integer as one unsigned byte.
 */
module RubyArray {

  import opened RubyHash

  /** An unsigned byte, the element type of `unpack('C*')`. */
  type byte = x: int | 0 <= x < 256

  /** `inject` without an initial value starts from the first element and
      folds the rest in from the left. */
  function Inject(acc: int, xs: seq<int>): (r: int)
    decreases |xs|
  {
    if xs == [] then acc else Inject(acc + xs[0], xs[1..])
  }

  /** `Array#sum` as the script defines it; `inject` on an empty array
      yields nil. */
  function Sum(xs: seq<int>): (r: Option<int>)
    ensures r.None? <==> xs == []
  {
    if xs == [] then None else Some(Inject(xs[0], xs[1..]))
  }

  /** The arithmetic total of xs, as a reference definition. */
  function Total(xs: seq<int>): (t: int)
  {
    if xs == [] then 0 else xs[0] + Total(xs[1..])
  }

  lemma {:induction false} InjectTotal(acc: int, xs: seq<int>)
    ensures Inject(acc, xs) == acc + Total(xs)
    decreases |xs|
  {
    if xs != [] {
      InjectTotal(acc + xs[0], xs[1..]);
    }
  }

  /** The script's `sum` of a non-empty array is its total. */
  lemma SumIsTotal(xs: seq<int>)
    requires xs != []
    ensures Sum(xs) == Some(Total(xs))
  {
    InjectTotal(xs[0], xs[1..]);
  }

  /** The total of a concatenation is the sum of the totals. */
  lemma {:induction false} TotalConcat(xs: seq<int>, ys: seq<int>)
    ensures Total(xs + ys) == Total(xs) + Total(ys)
    decreases |xs|
  {
    if xs == [] {
      assert xs + ys == ys;
    } else {
      assert (xs + ys)[1..] == xs[1..] + ys;
      TotalConcat(xs[1..], ys);
    }
  }

  /** `include?`: compares x with each element, first to last. */
  predicate Includes<T(==)>(xs: seq<T>, x: T)
    decreases |xs|
  {
    xs != [] && (xs[0] == x || Includes(xs[1..], x))
  }

  /** `include?` is membership. */
  lemma {:induction false} IncludesIsMember<T>(xs: seq<T>, x: T)
    ensures Includes(xs, x) <==> x in xs
    decreases |xs|
  {
    if xs != [] {
      IncludesIsMember(xs[1..], x);
      assert xs == [xs[0]] + xs[1..];
    }
  }

  /** `pack('C*')`: every integer becomes its low eight bits. */
  function PackC(xs: seq<int>): (r: seq<byte>)
    ensures |r| == |xs|
    ensures forall i :: 0 <= i < |xs| ==> (xs[i] - r[i]) % 256 == 0
    ensures forall i :: 0 <= i < |xs| && 0 <= xs[i] < 256 ==> r[i] == xs[i]
  {
    seq(|xs|, i requires 0 <= i < |xs| => xs[i] % 256)
  }
}
