/** The few Python built-ins that the trajectory tools build on: floor
    division, the first field of `str.split`, `os.path.join`, the `[:-1]`
    slice and `itertools.chain.from_iterable`. Each is written out so that
    the model does exactly what the interpreter does, edge cases included. */
module Builtins {

  /** Python's `a // b`: the quotient rounded toward negative infinity
      (Dafny's own `/` is Euclidean and differs when `b` is negative).
      Python raises ZeroDivisionError for `b == 0`; callers handle that case. */
  function FloorDiv(a: int, b: int): (q: int)
    requires b != 0
    ensures b > 0 ==> q * b <= a < q * b + b
    ensures b < 0 ==> q * b >= a > q * b + b
    ensures a >= 0 && b > 0 ==> q >= 0
    ensures a >= 0 && b < 0 ==> q <= 0
  {
    if b > 0 then a / b else (-a) / (-b)
  }

  /** `s.split(sep)[0]`: the text before the first `sep`, or all of `s`
      when `sep` does not occur in it. */
  function FirstField(s: string, sep: char): (r: string)
    ensures sep !in r
    ensures r <= s
    ensures r == s || s[|r|] == sep
  {
    if s == [] || s[0] == sep then [] else [s[0]] + FirstField(s[1..], sep)
  }

  /** Text that contains no separator, followed by a separator, splits
      back to that text: the first field is independent of what follows. */
  lemma {:induction false} FirstFieldOfPrefix(x: string, sep: char, rest: string)
    requires sep !in x
    ensures FirstField(x + [sep] + rest, sep) == x
  {
    if x != [] {
      assert (x + [sep] + rest)[1..] == x[1..] + [sep] + rest;
      FirstFieldOfPrefix(x[1..], sep, rest);
    }
  }

  /** `os.path.join(a, b)` on POSIX: an absolute `b` replaces `a`; otherwise
      one `/` is inserted unless `a` is empty or already ends in `/`. */
  function PathJoin(a: string, b: string): (r: string)
    ensures |b| <= |r| && r[|r| - |b|..] == b
    ensures |b| > 0 && b[0] == '/' ==> r == b
    ensures !(|b| > 0 && b[0] == '/') ==> r == a + b || r == a + "/" + b
    ensures !(|b| > 0 && b[0] == '/') ==> (r == a + b <==> a == [] || a[|a| - 1] == '/')
  {
    if |b| > 0 && b[0] == '/' then b
    else if a == [] || a[|a| - 1] == '/' then a + b
    else a + "/" + b
  }

  /** The slice `t[:-1]`: every element but the last; empty stays empty. */
  function AllButLast<T>(t: seq<T>): (r: seq<T>)
    ensures |r| == if |t| == 0 then 0 else |t| - 1
    ensures r <= t
  {
    if |t| == 0 then [] else t[..|t| - 1]
  }

  /** A non-empty sequence is its slice `[:-1]` followed by its last element. */
  lemma AllButLastThenLast<T>(t: seq<T>)
    requires |t| > 0
    ensures AllButLast(t) + [t[|t| - 1]] == t
  {
  }

  /** Dropping the last element of `a + b` with `b` non-empty drops it from `b`. */
  lemma AllButLastOfAppend<T>(a: seq<T>, b: seq<T>)
    requires |b| > 0
    ensures AllButLast(a + b) == a + AllButLast(b)
  {
  }

  /** `list(itertools.chain.from_iterable(ts))`: the sequences of `ts`
      one after another, in order. */
  function Chain<T>(ts: seq<seq<T>>): (r: seq<T>)
    ensures ts != [] ==> ts[0] <= r
    ensures |r| == TotalLength(ts)
  {
    if ts == [] then [] else ts[0] + Chain(ts[1..])
  }

  /** The number of elements over all the sequences of `ts`. */
  function TotalLength<T>(ts: seq<seq<T>>): nat
  {
    if ts == [] then 0 else |ts[0]| + TotalLength(ts[1..])
  }

  /** Chaining distributes over concatenation of the outer list. */
  lemma {:induction false} ChainAppend<T>(a: seq<seq<T>>, b: seq<seq<T>>)
    ensures Chain(a + b) == Chain(a) + Chain(b)
  {
    if a == [] {
      assert a + b == b;
    } else {
      assert (a + b)[0] == a[0];
      assert (a + b)[1..] == a[1..] + b;
      ChainAppend(a[1..], b);
    }
  }
}
