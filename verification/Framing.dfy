/** Self-delimiting encodings: when a stream of encoded items can be cut up again. */
module Framing {

  datatype Option<+T> = None | Some(value: T)

  /** n times x. */
  function Repeat<T>(x: T, n: nat): (r: seq<T>)
    ensures |r| == n && forall i :: 0 <= i < n ==> r[i] == x
  {
    seq(n, _ => x)
  }

  /** Concatenation of f(s[0]), f(s[1]), .... */
  function FlatMap<A, B>(f: A -> seq<B>, s: seq<A>): seq<B>
    decreases s
  {
    if s == [] then [] else f(s[0]) + FlatMap(f, s[1..])
  }

  lemma {:induction false} FlatMapAppend<A, B>(f: A -> seq<B>, s: seq<A>, t: seq<A>)
    ensures FlatMap(f, s + t) == FlatMap(f, s) + FlatMap(f, t)
    decreases s
  {
    if s == [] {
      assert s + t == t;
    } else {
      FlatMapAppend(f, s[1..], t);
      assert (s + t)[1..] == s[1..] + t;
    }
  }

  lemma FlatMapOne<A, B>(f: A -> seq<B>, a: A)
    ensures FlatMap(f, [a]) == f(a)
  {
    assert FlatMap(f, [a]) == f(a) + FlatMap(f, []);
  }

  /** Reads items off the front of s with `read`, which also says how much it took, until none
      is left to read; returns them with the unread rest. */
  function Scan<R, B>(read: seq<B> -> Option<(R, nat)>, s: seq<B>): (seq<R>, seq<B>)
    decreases |s|
  {
    match read(s)
    case None => ([], s)
    case Some((r, n)) =>
      if 0 < n <= |s| then
        var (rs, tail) := Scan(read, s[n..]);
        ([r] + rs, tail)
      else ([], s)
  }

  /** `read` undoes `write` on r, whatever follows. */
  ghost predicate ReadsBack<R, B(!new)>(read: seq<B> -> Option<(R, nat)>, write: R -> seq<B>, r: R) {
    write(r) != [] && forall rest :: read(write(r) + rest) == Some((r, |write(r)|))
  }

  /** A reader that undoes the writer in front of any continuation recovers every list of
      items, up to a tail that starts no item. */
  lemma {:induction false} ScanRecovers<R, B(!new)>(read: seq<B> -> Option<(R, nat)>, write: R -> seq<B>, rs: seq<R>, tail: seq<B>)
    requires forall r :: r in rs ==> ReadsBack(read, write, r)
    requires read(tail).None?
    ensures Scan(read, FlatMap(write, rs) + tail) == (rs, tail)
    decreases rs
  {
    if rs == [] {
      assert FlatMap(write, rs) + tail == tail;
    } else {
      var rest := FlatMap(write, rs[1..]) + tail;
      var all := write(rs[0]) + rest;
      assert FlatMap(write, rs) + tail == all;
      assert ReadsBack(read, write, rs[0]);
      assert all[|write(rs[0])|..] == rest;
      ScanRecovers(read, write, rs[1..], tail);
      assert [rs[0]] + rs[1..] == rs;
    }
  }

  /** `read` takes from the front of s what `write` makes of its result. */
  predicate ReadsSoundly<R, B(==)>(read: seq<B> -> Option<(R, nat)>, write: R -> seq<B>, s: seq<B>)
    requires read(s).Some?
  {
    var (r, n) := read(s).value;
    0 < n <= |s| && s[..n] == write(r)
  }

  lemma FlatMapFront<A, B>(f: A -> seq<B>, a: A, s: seq<A>)
    ensures FlatMap(f, [a] + s) == f(a) + FlatMap(f, s)
  {
    assert ([a] + s)[1..] == s;
  }

  lemma Associates<B>(a: seq<B>, b: seq<B>, c: seq<B>)
    ensures (a + b) + c == a + (b + c)
  {}

  /** What a sound reader finds, written again, and what it leaves are all it was given. */
  lemma {:induction false} ScanSound<R, B>(read: seq<B> -> Option<(R, nat)>, write: R -> seq<B>, s: seq<B>)
    requires forall t :: read(t).Some? ==> ReadsSoundly(read, write, t)
    ensures FlatMap(write, Scan(read, s).0) + Scan(read, s).1 == s
    decreases |s|
  {
    if read(s).Some? {
      assert ReadsSoundly(read, write, s);
      var (r, n) := read(s).value;
      var (rs, tail) := Scan(read, s[n..]);
      ScanSound(read, write, s[n..]);
      FlatMapFront(write, r, rs);
      Associates(write(r), FlatMap(write, rs), tail);
      assert s[..n] + s[n..] == s;
    }
  }
}
