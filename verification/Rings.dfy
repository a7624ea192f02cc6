/**
 A fixed-size store used as a ring: the elements from a head index up to a tail
 index, wrapping around the end.  One place always stays empty.
 */
module Rings {
  /** The last, or first, `n` elements. */
  function LastN<T>(s: seq<T>, n: nat): seq<T> {
    if |s| <= n then s else s[|s| - n..]
  }

  function FirstN<T>(s: seq<T>, n: nat): seq<T> {
    if |s| <= n then s else s[..n]
  }

  /** The elements from `h` up to, not including, `t`, wrapping around. */
  ghost function Ring<T>(data: seq<T>, h: nat, t: nat): seq<T>
    requires h < |data| && t < |data|
  {
    if h <= t then data[h..t] else data[h..] + data[..t]
  }

  lemma RingEmpty<T>(data: seq<T>, h: nat)
    requires h < |data|
    ensures Ring(data, h, h) == []
  {
  }

  lemma Wrap(x: nat, n: nat)
    requires n > 0 && x < 2 * n
    ensures x % n == if x < n then x else x - n
  {
  }

  lemma RingDropFront<T>(data: seq<T>, h: nat, t: nat)
    requires h < |data| && t < |data| && h != t
    ensures Ring(data, h, t) == [data[h]] + Ring(data, (h + 1) % |data|, t)
  {
    Wrap(h + 1, |data|);
  }

  lemma RingWriteBack<T>(data: seq<T>, h: nat, t: nat, c: T)
    requires h < |data| && t < |data| && (t + 1) % |data| != h
    ensures Ring(data[t := c], h, (t + 1) % |data|) == Ring(data, h, t) + [c]
  {
    Wrap(t + 1, |data|);
  }

  lemma RingDropBack<T>(data: seq<T>, h: nat, t: nat)
    requires h < |data| && t < |data| && h != t
    ensures Ring(data, h, t) == Ring(data, h, (t + |data| - 1) % |data|) + [data[(t + |data| - 1) % |data|]]
  {
    Wrap(t + |data| - 1, |data|);
  }

  lemma RingWriteFront<T>(data: seq<T>, h: nat, t: nat, c: T)
    requires h < |data| && t < |data| && (t + 1) % |data| != h
    ensures var h' := (h + |data| - 1) % |data|;
            h' != t && Ring(data[h' := c], h', t) == [c] + Ring(data, h, t)
  {
    Wrap(h + |data| - 1, |data|);
    Wrap(t + 1, |data|);
    var h' := (h + |data| - 1) % |data|;
    if h == 0 {
      assert data[h' := c][h'..] == [c];
    } else if h <= t {
      assert data[h' := c][h'..t] == [c] + data[h..t];
    } else {
      assert data[h' := c][h'..] == [c] + data[h..];
    }
  }
}
