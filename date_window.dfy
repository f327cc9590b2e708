/**
 * The date-window filter that runs after pagination: the last two pages,
 * reversed to oldest-first, are scanned from the front, keeping entries
 * published at or after the start of the range until `limit` are kept. The
 * scan continues while the previously examined entry (at first, the oldest
 * entry pagination saw) is not after the end of the range, so the first entry
 * after the end of the range is still examined and may be kept.
 */
module DateWindow {
  import opened Feed

  /**
   * The scan from the entry `xs[0]` on, where `prev` is the publish time the
   * loop test reads (the one examined last) and `room` is how many more
   * entries may be kept.
   */
  function Window(xs: seq<Entry>, prev: int, lo: int, hi: int, room: nat): (r: seq<Entry>)
    ensures |r| <= room
    ensures prev > hi ==> r == []
    decreases |xs|
  {
    if xs == [] || prev > hi then []
    else
      var d := xs[0].published;
      if d >= lo && room > 0 then [xs[0]] + Window(xs[1..], d, lo, hi, room - 1)
      else Window(xs[1..], d, lo, hi, room)
  }

  /** The scan loop, keeping at most `limit` entries, starting from publish time `seed`. */
  method FilterWindow(xs: seq<Entry>, seed: int, lo: int, hi: int, limit: nat)
    returns (filtered: seq<Entry>)
    ensures filtered == Window(xs, seed, lo, hi, limit)
  {
    filtered := [];
    var i := 0;
    var publishDate := seed;
    while i < |xs| && publishDate <= hi
      invariant 0 <= i <= |xs|
      invariant |filtered| <= limit
      invariant filtered + Window(xs[i..], publishDate, lo, hi, limit - |filtered|)
                == Window(xs, seed, lo, hi, limit)
    {
      WindowAt(xs, i, publishDate, lo, hi, limit - |filtered|);
      publishDate := xs[i].published;
      if publishDate >= lo && |filtered| < limit {
        ghost var rest := Window(xs[i + 1..], publishDate, lo, hi, limit - |filtered| - 1);
        assert (filtered + [xs[i]]) + rest == filtered + ([xs[i]] + rest);
        filtered := filtered + [xs[i]];
      }
      i := i + 1;
    }
  }

  /** One step of the scan, at position `i` of the entries. */
  lemma WindowAt(xs: seq<Entry>, i: nat, prev: int, lo: int, hi: int, room: nat)
    requires i < |xs| && prev <= hi
    ensures Window(xs[i..], prev, lo, hi, room) ==
            if xs[i].published >= lo && room > 0
            then [xs[i]] + Window(xs[i + 1..], xs[i].published, lo, hi, room - 1)
            else Window(xs[i + 1..], xs[i].published, lo, hi, room)
  {
    assert xs[i..][0] == xs[i] && xs[i..][1..] == xs[i + 1..];
  }

  /** Every entry kept is published at or after the start of the range. */
  lemma {:induction false} WindowSinceStart(xs: seq<Entry>, prev: int, lo: int, hi: int, room: nat)
    ensures forall e :: e in Window(xs, prev, lo, hi, room) ==> e.published >= lo
    decreases |xs|
  {
    if xs != [] && prev <= hi {
      var d := xs[0].published;
      if d >= lo && room > 0 {
        WindowSinceStart(xs[1..], d, lo, hi, room - 1);
      } else {
        WindowSinceStart(xs[1..], d, lo, hi, room);
      }
    }
  }

  /** The entries kept appear in the input, in the same order. */
  lemma {:induction false} WindowSubsequence(xs: seq<Entry>, prev: int, lo: int, hi: int, room: nat)
    ensures IsSubsequence(Window(xs, prev, lo, hi, room), xs)
    decreases |xs|
  {
    var r := Window(xs, prev, lo, hi, room);
    if xs != [] && prev <= hi {
      var d := xs[0].published;
      if d >= lo && room > 0 {
        WindowSubsequence(xs[1..], d, lo, hi, room - 1);
        assert r[0] == xs[0] && r[1..] == Window(xs[1..], d, lo, hi, room - 1);
      } else {
        WindowSubsequence(xs[1..], d, lo, hi, room);
      }
    }
  }

  /** Every element except possibly the last is published no later than `hi`. */
  predicate LateOnlyAtEnd(r: seq<Entry>, hi: int) {
    forall i :: 0 <= i < |r| - 1 ==> r[i].published <= hi
  }

  /**
   * Every entry kept except possibly the last is published no later than the
   * end of the range.
   */
  lemma {:induction false} WindowOvershootsByOne(xs: seq<Entry>, prev: int, lo: int, hi: int, room: nat)
    ensures LateOnlyAtEnd(Window(xs, prev, lo, hi, room), hi)
    decreases |xs|
  {
    var r := Window(xs, prev, lo, hi, room);
    if xs != [] && prev <= hi {
      var d := xs[0].published;
      if d >= lo && room > 0 {
        var rest := Window(xs[1..], d, lo, hi, room - 1);
        WindowOvershootsByOne(xs[1..], d, lo, hi, room - 1);
        assert r == [xs[0]] + rest;
        forall i | 0 <= i < |r| - 1
          ensures r[i].published <= hi
        {
          if i == 0 {
            assert rest != [];
          } else {
            assert r[i] == rest[i - 1];
          }
        }
      } else {
        WindowOvershootsByOne(xs[1..], d, lo, hi, room);
        assert r == Window(xs[1..], d, lo, hi, room);
      }
    }
  }

  /**
   * No entry after the first one published after `hi` is examined: cutting
   * the input just past any such entry does not change the result.
   */
  lemma {:induction false} WindowIgnoresLater(xs: seq<Entry>, prev: int, lo: int, hi: int, room: nat, k: nat)
    requires k < |xs| && xs[k].published > hi
    ensures Window(xs, prev, lo, hi, room) == Window(xs[..k + 1], prev, lo, hi, room)
    decreases k
  {
    if prev <= hi {
      var ys := xs[..k + 1];
      assert ys[0] == xs[0];
      if k == 0 {
        assert ys == [xs[0]];
      } else {
        assert ys[1..] == xs[1..][..k];
        if xs[0].published >= lo && room > 0 {
          WindowIgnoresLater(xs[1..], xs[0].published, lo, hi, room - 1, k - 1);
        } else {
          WindowIgnoresLater(xs[1..], xs[0].published, lo, hi, room, k - 1);
        }
      }
    }
  }

  // A second description of the same result, from standard pieces.

  /** Index of the first entry published after `hi`, or |xs| when there is none. */
  function FirstAfter(xs: seq<Entry>, hi: int): (k: nat)
    ensures k <= |xs|
  {
    if xs == [] || xs[0].published > hi then 0 else 1 + FirstAfter(xs[1..], hi)
  }

  /** `FirstAfter` finds the first entry published after `hi`. */
  lemma {:induction false} FirstAfterIsFirst(xs: seq<Entry>, hi: int)
    ensures var k := FirstAfter(xs, hi);
            (forall j :: 0 <= j < k ==> xs[j].published <= hi) &&
            (k < |xs| ==> xs[k].published > hi)
  {
    if xs != [] && xs[0].published <= hi {
      FirstAfterIsFirst(xs[1..], hi);
      forall j | 1 <= j < FirstAfter(xs, hi)
        ensures xs[j].published <= hi
      {
        assert xs[j] == xs[1..][j - 1];
      }
    }
  }

  /**
   * The entries the scan examines: none when the seed time is already after
   * `hi`; otherwise every entry up to and including the first one after `hi`.
   */
  function Examined(xs: seq<Entry>, seed: int, hi: int): seq<Entry> {
    if seed > hi then []
    else
      var k := FirstAfter(xs, hi);
      if k < |xs| then xs[..k + 1] else xs
  }

  /** The entries published at or after `lo`, in order. */
  function Since(xs: seq<Entry>, lo: int): seq<Entry> {
    if xs == [] then []
    else (if xs[0].published >= lo then [xs[0]] else []) + Since(xs[1..], lo)
  }

  /** The first `n` elements, or all of them when there are fewer. */
  function Take<T>(s: seq<T>, n: nat): seq<T> {
    if n < |s| then s[..n] else s
  }

  lemma ExaminedStep(xs: seq<Entry>, seed: int, hi: int)
    requires xs != [] && seed <= hi
    ensures Examined(xs, seed, hi) == [xs[0]] + Examined(xs[1..], xs[0].published, hi)
  {
    if xs[0].published <= hi {
      var k := FirstAfter(xs[1..], hi);
      if k < |xs| - 1 {
        assert xs[..k + 2] == [xs[0]] + xs[1..][..k + 1];
      } else {
        assert xs == [xs[0]] + xs[1..];
      }
    }
  }

  lemma SinceStep(x: Entry, xs: seq<Entry>, lo: int)
    ensures Since([x] + xs, lo) == (if x.published >= lo then [x] else []) + Since(xs, lo)
  {
    assert ([x] + xs)[1..] == xs;
  }

  lemma TakeStep<T>(x: T, s: seq<T>, n: nat)
    ensures Take([x] + s, n + 1) == [x] + Take(s, n)
  {
    if n < |s| {
      assert ([x] + s)[..n + 1] == [x] + s[..n];
    }
  }

  /**
   * The scan keeps the first `room` of the examined entries that are
   * published at or after `lo`.
   */
  lemma {:induction false} WindowIsReference(xs: seq<Entry>, prev: int, lo: int, hi: int, room: nat)
    ensures Window(xs, prev, lo, hi, room) == Take(Since(Examined(xs, prev, hi), lo), room)
    decreases |xs|
  {
    if xs != [] && prev <= hi {
      var d := xs[0].published;
      ExaminedStep(xs, prev, hi);
      var rest := Examined(xs[1..], d, hi);
      SinceStep(xs[0], rest, lo);
      if d >= lo && room > 0 {
        assert Since(Examined(xs, prev, hi), lo) == [xs[0]] + Since(rest, lo);
        WindowIsReference(xs[1..], d, lo, hi, room - 1);
        TakeStep(xs[0], Since(rest, lo), room - 1);
      } else if d >= lo {
        WindowIsReference(xs[1..], d, lo, hi, room);
      } else {
        assert Since(Examined(xs, prev, hi), lo) == Since(rest, lo);
        WindowIsReference(xs[1..], d, lo, hi, room);
      }
    } else if xs == [] {
      assert Examined(xs, prev, hi) == [];
    }
  }

  /**
   * The filter can keep an entry published after the end of the range: with
   * the range [0, 3], entries published at 1 and 5 both pass.
   */
  lemma WindowAdmitsLateEntry()
    ensures var late := Entry("b", 5, [], "", []);
            var xs := [Entry("a", 1, [], "", []), late];
            late in Window(xs, 1, 0, 3, 10) && late.published > 3
  {
    var early := Entry("a", 1, [], "", []);
    var late := Entry("b", 5, [], "", []);
    var xs := [early, late];
    assert xs[1..] == [late];
    assert [late][1..] == [];
    assert Window(xs, 1, 0, 3, 10) == [early, late];
  }
}
