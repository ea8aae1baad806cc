/**
 * The rotation cursor: `getLastIndex` reads the record linkIndex.json,
 * `saveLastIndex` overwrites it, and `getNextLink` selects
 * `links[lastIndex % links.length]` and persists that index plus one.
 */
module Rotation {
  import opened Wrappers
  import opened Modular

  /** What reading linkIndex.json can find. */
  datatype CursorRecord =
    | NoFile                          // `fs.existsSync` reports no file
    | Unreadable                      // reading, `JSON.parse` or the property access throws
    | Stored(lastIndex: Option<int>)  // parsed; `None` when `lastIndex` is missing or a falsy non-number

  /** `getLastIndex()`: `json.lastIndex || 0`, and 0 whenever there is no usable record.
      A non-zero cursor can only come from a stored integer. */
  function GetLastIndex(rec: CursorRecord): (c: int)
    ensures c != 0 ==> rec == Stored(Some(c))
  {
    match rec
    case Stored(last) => last.GetOr(0)
    case _ => 0
  }

  /** The record `saveLastIndex(index)` writes, `{ "lastIndex": index }`. Whatever it
      holds is what `getLastIndex` reads back, 0 included (`0 || 0` is 0), so a
      restarted process resumes from the persisted cursor. */
  function Saved(index: int): (rec: CursorRecord)
    ensures GetLastIndex(rec) == index
  {
    Stored(Some(index))
  }

  /** JavaScript's `a % n` for `n > 0`: the remainder is congruent to `a`, smaller
      than `n` in magnitude and takes the sign of the dividend. */
  function JsRem(a: int, n: int): (r: int)
    requires n > 0
    ensures -n < r < n
    ensures a >= 0 ==> r == a % n
    ensures a < 0 ==> r <= 0
  {
    if a >= 0 then a % n else -((-a) % n)
  }

  /** The JavaScript remainder differs from the dividend by a multiple of the divisor. */
  lemma JsRemCongruent(a: int, n: int)
    requires n > 0
    ensures (a - JsRem(a, n)) % n == 0
  {
    if a >= 0 {
      assert a == (a / n) * n + a % n;
      ModUnique(a - a % n, n, a / n, 0);
    } else {
      var m := (-a) % n;
      assert -a == ((-a) / n) * n + m;
      assert a + m == (-((-a) / n)) * n + 0;
      ModUnique(a + m, n, -((-a) / n), 0);
    }
  }

  /** The outcome of one `getNextLink()` call. */
  datatype Pick =
    | NoLinks                                // the list is empty: `null`, and nothing is written
    | Picked(slot: int, link: Option<string>) // `nextIndex` and `links[nextIndex]` (`None` is `undefined`);
                                             // `slot + 1` is written back
  {
    /** What `getNextLink()` returns; `None` is JavaScript's `null` or `undefined`. */
    function Link(): Option<string> {
      if Picked? then link else None
    }
  }

  /** `getNextLink()` on the list `links` with stored cursor `last`. An empty list
      writes nothing; otherwise the slot is congruent to the cursor and the link is
      the list's element there. From any cursor `last >= 0` — even one at or past the
      end of a list that has shrunk — the call yields an element of the current list
      and writes a cursor in [1, |links|]. */
  function NextLinkStep(links: seq<string>, last: int): (p: Pick)
    ensures p.NoLinks? <==> links == []
    ensures p.Picked? ==> -|links| < p.slot < |links| && (last - p.slot) % |links| == 0
    ensures p.Picked? ==> (p.link.Some? <==> 0 <= p.slot)
    ensures p.Picked? && p.link.Some? ==> p.link.value == links[p.slot]
    ensures p.Picked? && p.link.None? ==> last < 0
    ensures p.Picked? && last < 0 ==> p.slot <= 0
    ensures links != [] && last >= 0 ==>
      p == Picked(last % |links|, Some(links[last % |links|])) && 1 <= p.slot + 1 <= |links|
  {
    if |links| == 0 then NoLinks
    else
      var next := JsRem(last, |links|);
      JsRemCongruent(last, |links|);
      Picked(next, if 0 <= next then Some(links[next]) else None)
  }

  /** The record after a call: `saveLastIndex(nextIndex + 1)` unless the list was empty. */
  function After(rec: CursorRecord, p: Pick): (r: CursorRecord)
    ensures p.Picked? ==> GetLastIndex(r) == p.slot + 1
    ensures p.NoLinks? ==> r == rec
  {
    if p.Picked? then Saved(p.slot + 1) else rec
  }

  /** One call as it reads the record: nothing on an empty list, and from a usable
      cursor `c >= 0` the link at `c mod n`. */
  function Step(links: seq<string>, rec: CursorRecord): (p: Pick)
    ensures p.NoLinks? <==> links == []
    ensures var c := GetLastIndex(rec);
      links != [] && c >= 0 ==> p == Picked(c % |links|, Some(links[c % |links|]))
  {
    NextLinkStep(links, GetLastIndex(rec))
  }

  /** `k` consecutive calls on an unchanged list, starting from record `rec`. */
  function Run(links: seq<string>, rec: CursorRecord, k: nat): (picks: seq<Pick>)
    ensures |picks| == k
    decreases k
  {
    if k == 0 then []
    else
      var p := Step(links, rec);
      [p] + Run(links, After(rec, p), k - 1)
  }

  /** The record after `k` consecutive calls. */
  function RecordAfter(links: seq<string>, rec: CursorRecord, k: nat): CursorRecord
    decreases k
  {
    if k == 0 then rec else RecordAfter(links, After(rec, Step(links, rec)), k - 1)
  }

  // -------------------------------------------------------------- rotation

  /** Round-robin: with the list unchanged, the i-th of `k` consecutive calls from
      cursor `c0 >= 0` selects slot `(c0 + i) mod n` and returns the link there, and
      the record then holds the last slot plus one. */
  lemma {:induction false} RoundRobin(links: seq<string>, rec: CursorRecord, k: nat)
    requires links != [] && GetLastIndex(rec) >= 0
    ensures var c0, n := GetLastIndex(rec), |links|;
      forall i :: 0 <= i < k ==>
        Run(links, rec, k)[i] == Picked((c0 + i) % n, Some(links[(c0 + i) % n]))
    ensures var c0, n := GetLastIndex(rec), |links|;
      k > 0 ==> RecordAfter(links, rec, k) == Saved((c0 + k - 1) % n + 1)
    decreases k
  {
    var c0, n := GetLastIndex(rec), |links|;
    if k > 0 {
      var p := Step(links, rec);
      var rec' := After(rec, p);
      assert GetLastIndex(rec') == c0 % n + 1;
      RoundRobin(links, rec', k - 1);
      var picks := Run(links, rec, k);
      forall i | 0 <= i < k
        ensures picks[i] == Picked((c0 + i) % n, Some(links[(c0 + i) % n]))
      {
        if i > 0 {
          ModShift(c0, 1 + (i - 1), n);
          assert picks[i] == Run(links, rec', k - 1)[i - 1];
        }
      }
      if k > 1 {
        ModShift(c0, 1 + (k - 2), n);
      }
    }
  }

  /** The stored cursor is re-anchored on every call: after one or more calls on an
      unchanged list of length `n`, from any cursor `c0 >= 0`, it lies in `[1, n]`. */
  lemma CursorBounded(links: seq<string>, rec: CursorRecord, k: nat)
    requires links != [] && GetLastIndex(rec) >= 0 && k > 0
    ensures 1 <= GetLastIndex(RecordAfter(links, rec, k)) <= |links|
  {
    RoundRobin(links, rec, k);
  }

  /** If the list changes between calls (it shrinks below the stored cursor, say), the
      next call still returns an element of the current list. */
  lemma ShrunkListStillPicks(before: seq<string>, links: seq<string>, rec: CursorRecord, k: nat)
    requires links != [] && GetLastIndex(rec) >= 0
    ensures Step(links, RecordAfter(before, rec, k)).Link().Some?
    ensures Step(links, RecordAfter(before, rec, k)).Link().value in links
  {
    if before == [] {
      EmptyListIdle(rec, k);
    } else if k > 0 {
      RoundRobin(before, rec, k);
    }
  }

  /** Some call in `picks` selects slot `j`. */
  predicate SelectedIn(picks: seq<Pick>, j: int) {
    exists i :: 0 <= i < |picks| && picks[i].Picked? && picks[i].slot == j
  }

  /** Fairness: in any `n` consecutive calls on a list of length `n`, from any cursor
      `c0 >= 0`, every slot is selected exactly once. */
  lemma Fair(links: seq<string>, rec: CursorRecord)
    requires links != [] && GetLastIndex(rec) >= 0
    ensures var picks := Run(links, rec, |links|);
      forall i :: 0 <= i < |picks| ==> picks[i].Picked? && picks[i].link.Some?
    ensures var picks := Run(links, rec, |links|);
      forall j :: 0 <= j < |links| ==> SelectedIn(picks, j)
    ensures var picks := Run(links, rec, |links|);
      forall i1, i2 :: 0 <= i1 < i2 < |picks| ==> picks[i1].slot != picks[i2].slot
  {
    var c0, n := GetLastIndex(rec), |links|;
    var picks := Run(links, rec, n);
    RoundRobin(links, rec, n);
    var r := c0 % n;
    forall i | 0 <= i < n ensures picks[i].slot == if r + i < n then r + i else r + i - n {
      ModShift(c0, i, n);
      SmallMod(r + i, n);
    }
    forall j | 0 <= j < n ensures SelectedIn(picks, j) {
      var i := if j >= r then j - r else j - r + n;
      assert picks[i].slot == j;
    }
  }

  /** The rotation survives a restart: splitting a run of calls at any point, and
      resuming from the persisted record, selects the same links. */
  lemma {:induction false} ResumeAfterRestart(links: seq<string>, rec: CursorRecord, j: nat, k: nat)
    ensures Run(links, rec, j + k) == Run(links, rec, j) + Run(links, RecordAfter(links, rec, j), k)
    decreases j
  {
    if j > 0 {
      var rec' := After(rec, Step(links, rec));
      ResumeAfterRestart(links, rec', j - 1, k);
      assert j + k - 1 == (j - 1) + k;
    }
  }

  /** An empty list makes every call return nothing and leaves the record untouched. */
  lemma {:induction false} EmptyListIdle(rec: CursorRecord, k: nat)
    ensures forall i :: 0 <= i < k ==> Run([], rec, k)[i] == NoLinks
    ensures RecordAfter([], rec, k) == rec
    decreases k
  {
    if k > 0 {
      EmptyListIdle(rec, k - 1);
    }
  }

  /** A negative cursor, which `saveLastIndex` never writes but a hand-edited record
      can hold, selects `undefined` (nothing is sent) but still moves the cursor up by
      one until it is non-negative, so the rotation resumes within `n` calls. */
  lemma {:induction false} NegativeCursorRecovers(links: seq<string>, rec: CursorRecord)
    requires links != [] && GetLastIndex(rec) < 0
    ensures GetLastIndex(RecordAfter(links, rec, |links|)) >= 0
  {
    var n := |links|;
    var p := Step(links, rec);
    var rec' := After(rec, p);
    var c1 := GetLastIndex(rec');
    assert c1 == p.slot + 1 && -n + 1 < c1 <= 1;
    CursorClimbs(links, rec', n - 1);
  }

  lemma {:induction false} CursorClimbs(links: seq<string>, rec: CursorRecord, k: nat)
    requires links != [] && -|links| < GetLastIndex(rec) && GetLastIndex(rec) + k >= 0
    ensures GetLastIndex(RecordAfter(links, rec, k)) >= 0
    decreases k
  {
    var c, n := GetLastIndex(rec), |links|;
    if k > 0 {
      var rec' := After(rec, Step(links, rec));
      if c >= 0 {
        assert GetLastIndex(rec') == c % n + 1;
      } else {
        ModUnique(-c, n, 0, -c);
        assert GetLastIndex(rec') == c + 1;
      }
      CursorClimbs(links, rec', k - 1);
    }
  }

  /** The three-link scenario: from a fresh record the ticks send A, B, C, then A again,
      persisting 1, 2, 3 and then 1. */
  lemma ThreeLinks()
    ensures Run(["A", "B", "C"], NoFile, 4) ==
      [Picked(0, Some("A")), Picked(1, Some("B")), Picked(2, Some("C")), Picked(0, Some("A"))]
    ensures RecordAfter(["A", "B", "C"], NoFile, 3) == Saved(3)
    ensures RecordAfter(["A", "B", "C"], NoFile, 4) == Saved(1)
  {
    RoundRobin(["A", "B", "C"], NoFile, 4);
    RoundRobin(["A", "B", "C"], NoFile, 3);
  }
}
