/**
 The shape the packed-entry parsers share: decode an entry at the cursor, move to
 the entry's end, stop after a given count or at the first entry that does not fit.
 */
module ParseLoop {
  import opened Wrappers
  import opened Bytes

  /** An entry and the offset just past it, or nothing when no entry fits at the offset. */
  type Parser<T> = (seq<byte>, nat) -> Option<(T, nat)>

  function Run<T>(p: Parser<T>, data: seq<byte>, off: nat, count: nat): seq<T>
    decreases count
  {
    if count == 0 then []
    else
      match p(data, off)
      case None => []
      case Some((entry, next)) => [entry] + Run(p, data, next, count - 1)
  }

  /** The parser reads back one encoded entry wherever it lies. */
  ghost predicate ReadsBack<E(!new), T(!new)>(p: Parser<T>, enc: E -> seq<byte>, dec: E -> T, ok: E -> bool) {
    forall pre: seq<byte>, e: E, post: seq<byte> {:trigger pre + enc(e) + post} ::
      ok(e) ==> p(pre + enc(e) + post, |pre|) == Some((dec(e), |pre| + |enc(e)|))
  }

  function EncodeAll<E>(enc: E -> seq<byte>, es: seq<E>): seq<byte> {
    if es == [] then [] else enc(es[0]) + EncodeAll(enc, es[1..])
  }

  function MapAll<E, T>(dec: E -> T, es: seq<E>): seq<T> {
    if es == [] then [] else [dec(es[0])] + MapAll(dec, es[1..])
  }

  /** Entries laid end to end are read back in order. */
  lemma {:induction false} RunReadsBack<E(!new), T(!new)>(p: Parser<T>, enc: E -> seq<byte>, dec: E -> T,
                                                         ok: E -> bool, pre: seq<byte>, es: seq<E>, post: seq<byte>)
    requires ReadsBack(p, enc, dec, ok) && forall e :: e in es ==> ok(e)
    ensures Run(p, pre + EncodeAll(enc, es) + post, |pre|, |es|) == MapAll(dec, es)
    decreases |es|
  {
    if es != [] {
      Regroup(pre, enc(es[0]), EncodeAll(enc, es[1..]), post);
      RunReadsBack(p, enc, dec, ok, pre + enc(es[0]), es[1..], post);
    }
  }

  lemma Regroup(pre: seq<byte>, first: seq<byte>, rest: seq<byte>, post: seq<byte>)
    ensures pre + (first + rest) + post == pre + first + (rest + post) == (pre + first) + rest + post
  {}

  /** An entry that fits in a prefix of the data reads the same in the whole. */
  ghost predicate Stable<T(!new)>(p: Parser<T>) {
    forall a: seq<byte>, b: seq<byte>, o: nat :: a <= b && p(a, o).Some? ==> p(b, o) == p(a, o)
  }

  /** Truncated data yields a prefix of the entries. */
  lemma {:induction false} RunOfPrefix<T(!new)>(p: Parser<T>, a: seq<byte>, b: seq<byte>, off: nat, count: nat)
    requires Stable(p) && a <= b
    ensures Run(p, a, off, count) <= Run(p, b, off, count)
    decreases count
  {
    if count > 0 && p(a, off).Some? {
      assert p(b, off) == p(a, off);
      RunOfPrefix(p, a, b, p(a, off).value.1, count - 1);
    }
  }

  /** One turn of the loop. */
  lemma RunStep<T>(p: Parser<T>, data: seq<byte>, off: nat, count: nat, out: seq<T>)
    requires count > 0 && p(data, off).Some?
    ensures var (entry, next) := p(data, off).value;
      out + Run(p, data, off, count) == (out + [entry]) + Run(p, data, next, count - 1)
  {}

  // ------------------------------------------------ indexed entries, unreadable ones passed over

  function Collect<T>(entry: nat -> Option<T>, i: nat, n: nat): seq<T>
    requires i <= n
    decreases n - i
  {
    if i == n then []
    else (if entry(i).Some? then [entry(i).value] else []) + Collect(entry, i + 1, n)
  }

  lemma CollectStep<T>(entry: nat -> Option<T>, i: nat, n: nat, out: seq<T>)
    requires i < n
    ensures out + Collect(entry, i, n)
      == (if entry(i).Some? then out + [entry(i).value] else out) + Collect(entry, i + 1, n)
  {}

  /** The values that are there, in order. */
  function Present<E>(es: seq<Option<E>>): seq<E> {
    if es == [] then [] else (if es[0].Some? then [es[0].value] else []) + Present(es[1..])
  }

  function Decode<E, T>(dec: E -> T, e: Option<E>): Option<T> {
    match e
    case None => None
    case Some(v) => Some(dec(v))
  }

  lemma MapFirst<E, T>(dec: E -> T, first: E, rest: seq<E>)
    ensures MapAll(dec, [first] + rest) == [dec(first)] + MapAll(dec, rest)
  {
    assert ([first] + rest)[1..] == rest;
  }

  lemma PresentSome<E>(es: seq<Option<E>>)
    requires es != [] && es[0].Some?
    ensures Present(es) == [es[0].value] + Present(es[1..])
  {}

  lemma PresentNone<E>(es: seq<Option<E>>)
    requires es != [] && es[0].None?
    ensures Present(es) == Present(es[1..])
  {}

  /** Readable entries are collected in order, and the others passed over. */
  lemma {:induction false} CollectPresent<E, T>(entry: nat -> Option<T>, dec: E -> T, i: nat, es: seq<Option<E>>)
    requires i <= |es|
    requires forall k :: i <= k < |es| ==> entry(k) == Decode(dec, es[k])
    ensures Collect(entry, i, |es|) == MapAll(dec, Present(es[i..]))
    decreases |es| - i
  {
    if i < |es| {
      CollectPresent(entry, dec, i + 1, es);
      var here, rest := es[i..], es[i + 1..];
      assert here[1..] == rest && here[0] == es[i];
      if es[i].Some? {
        PresentSome(here);
        MapFirst(dec, es[i].value, Present(rest));
      } else {
        PresentNone(here);
      }
    }
  }
}
