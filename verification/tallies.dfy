/** A counting histogram, as built by incrementing a dict of counts that defaults to 0:
    an ordered list of (key, count) entries in the order the labels were
    first counted, which is the order a Python dict iterates its keys. */
module Tallies {

  datatype Tally = Tally(key: string, count: nat)

  type Histogram = seq<Tally>

  /** The count recorded for `key`, 0 if none. */
  function Count(h: Histogram, key: string): nat
  {
    if |h| == 0 then 0
    else if h[0].key == key then h[0].count
    else Count(h[1..], key)
  }

  /** Sum of all counts. */
  function Total(h: Histogram): nat
  {
    if |h| == 0 then 0 else h[0].count + Total(h[1..])
  }

  /** The keys of the dict. */
  function Labels(h: Histogram): set<string>
  {
    set i | 0 <= i < |h| :: h[i].key
  }

  /** The keys of the dict in iteration order. */
  function Keys(h: Histogram): seq<string>
  {
    seq(|h|, i requires 0 <= i < |h| => h[i].key)
  }

  /** A dict never holds the same key twice. */
  ghost predicate Distinct(h: Histogram)
  {
    forall i, j :: 0 <= i < j < |h| ==> h[i].key != h[j].key
  }

  /** Every key of a histogram built by incrementing has been counted at least once. */
  ghost predicate Positive(h: Histogram)
  {
    forall i :: 0 <= i < |h| ==> h[i].count > 0
  }

  lemma LabelsCons(t: Tally, h: Histogram)
    ensures Labels([t] + h) == {t.key} + Labels(h)
  {
    var c := [t] + h;
    forall l | l in Labels(c) ensures l in {t.key} + Labels(h) {
      var i :| 0 <= i < |c| && c[i].key == l;
      if i > 0 { assert h[i - 1].key == l; }
    }
    assert c[0].key in Labels(c);
    forall l | l in Labels(h) ensures l in Labels(c) {
      var i :| 0 <= i < |h| && h[i].key == l;
      assert c[i + 1].key == l;
    }
  }

  /** Counting one more `key`: the count of `key` grows by one,
      every other count is unchanged, an existing key keeps its place and a new
      key is appended at the end. */
  function Bump(h: Histogram, key: string): (r: Histogram)
    ensures Count(r, key) == Count(h, key) + 1
    ensures forall other :: other != key ==> Count(r, other) == Count(h, other)
    ensures Total(r) == Total(h) + 1
    ensures key !in Labels(h) ==> r == h + [Tally(key, 1)]
    ensures |r| >= |h| && forall i :: 0 <= i < |h| ==> r[i].key == h[i].key
  {
    if |h| == 0 then [Tally(key, 1)]
    else if h[0].key == key then [h[0].(count := h[0].count + 1)] + h[1..]
    else
      LabelsCons(h[0], h[1..]);
      assert h == [h[0]] + h[1..];
      [h[0]] + Bump(h[1..], key)
  }

  /** Incrementing adds `key` to the keys of the histogram and no other key. */
  lemma {:induction false} BumpLabels(h: Histogram, key: string)
    ensures Labels(Bump(h, key)) == Labels(h) + {key}
  {
    if |h| > 0 {
      assert h == [h[0]] + h[1..];
      LabelsCons(h[0], h[1..]);
      if h[0].key == key {
        LabelsCons(h[0].(count := h[0].count + 1), h[1..]);
      } else {
        BumpLabels(h[1..], key);
        LabelsCons(h[0], Bump(h[1..], key));
      }
    }
  }

  /** A histogram with one more entry in front has distinct keys exactly when
      the rest does and the new key is not among them. */
  lemma DistinctCons(t: Tally, h: Histogram)
    ensures Distinct([t] + h) <==> t.key !in Labels(h) && Distinct(h)
  {
    var c := [t] + h;
    if Distinct(c) {
      forall i, j | 0 <= i < j < |h| ensures h[i].key != h[j].key {
        assert c[i + 1] == h[i] && c[j + 1] == h[j];
      }
      forall l | l in Labels(h) ensures l != t.key {
        var i :| 0 <= i < |h| && h[i].key == l;
        assert c[0] == t && c[i + 1] == h[i];
        assert c[0].key != c[i + 1].key;
      }
    }
    if t.key !in Labels(h) && Distinct(h) {
      forall i, j | 0 <= i < j < |c| ensures c[i].key != c[j].key {
        assert c[j] == h[j - 1];
        if i > 0 {
          assert c[i] == h[i - 1];
        } else {
          assert h[j - 1].key in Labels(h);
        }
      }
    }
  }

  /** Incrementing keeps the keys distinct and every count positive. */
  lemma BumpDistinct(h: Histogram, key: string)
    requires Distinct(h) && Positive(h)
    ensures Distinct(Bump(h, key)) && Positive(Bump(h, key))
  {
    BumpKeysDistinct(h, key);
    BumpPositive(h, key);
  }

  lemma {:induction false} BumpKeysDistinct(h: Histogram, key: string)
    requires Distinct(h)
    ensures Distinct(Bump(h, key))
  {
    if |h| > 0 {
      var t := h[0];
      var tail := h[1..];
      assert h == [t] + tail;
      DistinctCons(t, tail);
      if t.key == key {
        var t' := t.(count := t.count + 1);
        assert Bump(h, key) == [t'] + tail;
        DistinctCons(t', tail);
      } else {
        var rest := Bump(tail, key);
        assert Bump(h, key) == [t] + rest;
        BumpKeysDistinct(tail, key);
        BumpLabels(tail, key);
        DistinctCons(t, rest);
      }
    }
  }

  lemma {:induction false} BumpPositive(h: Histogram, key: string)
    requires Positive(h)
    ensures Positive(Bump(h, key))
  {
    if |h| > 0 && h[0].key != key {
      var rest := Bump(h[1..], key);
      BumpPositive(h[1..], key);
      assert Bump(h, key) == [h[0]] + rest;
    }
  }

  lemma KeysCons(t: Tally, h: Histogram)
    ensures Keys([t] + h) == [t.key] + Keys(h)
  {
  }

  /** Incrementing keeps the iteration order of the keys: a key already
      present keeps its place, and a new key comes last. */
  lemma {:induction false} BumpKeys(h: Histogram, key: string)
    ensures Keys(Bump(h, key)) == if key in Keys(h) then Keys(h) else Keys(h) + [key]
  {
    if |h| > 0 {
      var t := h[0];
      var rest := h[1..];
      assert h == [t] + rest;
      KeysCons(t, rest);
      if t.key == key {
        var t' := t.(count := t.count + 1);
        assert Bump(h, key) == [t'] + rest;
        KeysCons(t', rest);
        assert Keys(h)[0] == key;
      } else {
        var r := Bump(rest, key);
        assert Bump(h, key) == [t] + r;
        KeysCons(t, r);
        BumpKeys(rest, key);
        assert key in Keys(h) <==> key in Keys(rest);
      }
    }
  }

  /** A histogram built by incrementing is empty exactly when its total is 0. */
  lemma EmptyIffTotalZero(h: Histogram)
    requires Positive(h)
    ensures h == [] <==> Total(h) == 0
  {
    if |h| > 0 {
      assert Total(h) >= h[0].count > 0;
    }
  }

  /** With distinct keys, the count of the key at position `i` is that entry's count. */
  lemma {:induction false} CountAt(h: Histogram, i: nat)
    requires Distinct(h)
    requires i < |h|
    ensures Count(h, h[i].key) == h[i].count
  {
    if i > 0 {
      assert h[0].key != h[i].key;
      assert h[1..][i - 1] == h[i];
      CountAt(h[1..], i - 1);
    }
  }

  /** A positive count belongs to some entry of the histogram. */
  lemma {:induction false} CountFromEntry(h: Histogram, key: string)
    ensures Count(h, key) == 0 || exists i :: 0 <= i < |h| && h[i].key == key && h[i].count == Count(h, key)
  {
    if |h| > 0 && h[0].key != key {
      CountFromEntry(h[1..], key);
      if Count(h[1..], key) != 0 {
        var i :| 0 <= i < |h[1..]| && h[1..][i].key == key && h[1..][i].count == Count(h[1..], key);
        assert h[i + 1] == h[1..][i];
      }
    }
  }

  /** The search for the key with the largest count, left to right from position `i`, with `best`
      the position of the first largest count among positions below `i`. Like
      Python's `max`, a later entry replaces the current best only when its
      count is strictly larger, so ties go to the earliest key. */
  function MaxIndexFrom(h: Histogram, i: nat, best: nat): (r: nat)
    requires best < i <= |h|
    requires forall j :: 0 <= j < i ==> h[j].count <= h[best].count
    requires forall j :: 0 <= j < best ==> h[j].count < h[best].count
    ensures r < |h|
    ensures forall j :: 0 <= j < |h| ==> h[j].count <= h[r].count
    ensures forall j :: 0 <= j < r ==> h[j].count < h[r].count
    decreases |h| - i
  {
    if i == |h| then best
    else MaxIndexFrom(h, i + 1, if h[i].count > h[best].count then i else best)
  }

  /** Position of the first entry with the largest count. */
  function MaxIndex(h: Histogram): (r: nat)
    requires |h| > 0
    ensures r < |h|
    ensures forall j :: 0 <= j < |h| ==> h[j].count <= h[r].count
    ensures forall j :: 0 <= j < r ==> h[j].count < h[r].count
  {
    MaxIndexFrom(h, 1, 0)
  }
}
