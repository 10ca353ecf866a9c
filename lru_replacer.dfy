/**
 * The LRU replacement policy: a recency list of the frames that may be
 * evicted, with the most recently unpinned frame at the front and the next
 * victim at the back, and the set of frames the list holds.
 */
module Replacer {
  import opened Common

  /** The list with `x` erased; the other frames keep their relative order. */
  function Remove(s: seq<int>, x: int): (r: seq<int>)
    ensures Elems(r) == Elems(s) - {x}
    ensures NoDup(s) ==> NoDup(r)
    ensures NoDup(s) && x in s ==> |r| == |s| - 1
    ensures x !in s ==> r == s
    decreases |s|
  {
    if s == [] then []
    else if s[0] == x then Remove(s[1..], x)
    else
      var rest := Remove(s[1..], x);
      assert Elems([s[0]] + rest) == {s[0]} + Elems(rest);
      assert Elems(s) == {s[0]} + Elems(s[1..]);
      [s[0]] + rest
  }

  /** In a list without duplicates, erasing the frame at position `k` is cutting that position out. */
  lemma {:induction false} RemoveAt(s: seq<int>, k: int)
    requires NoDup(s) && 0 <= k < |s|
    ensures Remove(s, s[k]) == s[..k] + s[k + 1..]
    decreases k
  {
    HeadNotInTail(s);
    var t := s[1..];
    if k == 0 {
      assert Remove(s, s[0]) == Remove(t, s[0]);
    } else {
      assert t[k - 1] == s[k] && s[0] != s[k];
      RemoveAt(t, k - 1);
      SpliceTail(s, k);
    }
  }

  /** Cutting position k > 0 out of a list is keeping its head and cutting position k-1 out of its tail. */
  lemma SpliceTail(s: seq<int>, k: int)
    requires 0 < k < |s|
    ensures [s[0]] + (s[1..][..k - 1] + s[1..][k..]) == s[..k] + s[k + 1..]
  {
    assert s[1..][..k - 1] == s[1..k];
    assert s[1..][k..] == s[k + 1..];
    assert [s[0]] + s[1..k] == s[..k];
  }

  /** The list after unpin(f). */
  function Unpinned(l: seq<int>, f: int): seq<int>
  {
    if f in l then l else [f] + l
  }

  /** unpin keeps the list free of duplicates and adds `f` to the tracked frames. */
  lemma UnpinnedValid(l: seq<int>, f: int)
    requires NoDup(l)
    ensures NoDup(Unpinned(l, f))
    ensures Elems(Unpinned(l, f)) == Elems(l) + {f}
  {
    assert Elems([f] + l) == {f} + Elems(l);
  }

  /** The list after unpinning each frame of `fs` in turn, with no pin in between. */
  function UnpinAll(l: seq<int>, fs: seq<int>): seq<int>
    decreases |fs|
  {
    if fs == [] then l else UnpinAll(Unpinned(l, fs[0]), fs[1..])
  }

  /** Unpinning frames one after another keeps the list free of duplicates and tracks every one of them. */
  lemma {:induction false} UnpinAllTracks(l: seq<int>, fs: seq<int>)
    requires NoDup(l)
    ensures NoDup(UnpinAll(l, fs))
    ensures Elems(UnpinAll(l, fs)) == Elems(l) + Elems(fs)
    decreases |fs|
  {
    if fs != [] {
      UnpinnedValid(l, fs[0]);
      UnpinAllTracks(Unpinned(l, fs[0]), fs[1..]);
      assert Elems(fs) == {fs[0]} + Elems(fs[1..]);
    }
  }

  /** The frames that successive victim() calls return until the list is empty. */
  function Drain(l: seq<int>): (r: seq<int>)
    ensures |r| == |l|
    ensures l != [] ==> r[0] == l[|l| - 1]
    decreases |l|
  {
    if l == [] then [] else [l[|l| - 1]] + Drain(l[..|l| - 1])
  }

  /** Drain takes the back part of a list before its front part. */
  lemma {:induction false} DrainAppend(a: seq<int>, b: seq<int>)
    ensures Drain(a + b) == Drain(b) + Drain(a)
    decreases |b|
  {
    if b == [] {
      assert a + b == a;
    } else {
      var b' := b[..|b| - 1];
      assert (a + b)[..|a + b| - 1] == a + b';
      assert (a + b)[|a + b| - 1] == b[|b| - 1];
      DrainAppend(a, b');
    }
  }

  /** Unpinning fresh frames one after another pushes them on the front, the last one first. */
  lemma {:induction false} UnpinAllFresh(l: seq<int>, fs: seq<int>)
    requires NoDup(fs) && forall i :: 0 <= i < |fs| ==> fs[i] !in l
    ensures UnpinAll(l, fs) == Drain(fs) + l
    decreases |fs|
  {
    if fs != [] {
      var f0, rest := fs[0], fs[1..];
      FreshTail(l, fs);
      assert UnpinAll(l, fs) == UnpinAll([f0] + l, rest);
      UnpinAllFresh([f0] + l, rest);
      DrainFront(fs);
      assert (Drain(rest) + [f0]) + l == Drain(rest) + ([f0] + l);
    }
  }

  /** The first fresh frame goes on the front, and the others stay fresh for the longer list. */
  lemma FreshTail(l: seq<int>, fs: seq<int>)
    requires fs != [] && NoDup(fs) && forall i :: 0 <= i < |fs| ==> fs[i] !in l
    ensures Unpinned(l, fs[0]) == [fs[0]] + l
    ensures NoDup(fs[1..]) && forall i :: 0 <= i < |fs[1..]| ==> fs[1..][i] !in [fs[0]] + l
  {
    assert fs[0] !in l;
    forall i | 0 <= i < |fs[1..]|
      ensures fs[1..][i] !in [fs[0]] + l
    {
      assert fs[1..][i] == fs[i + 1];
    }
    HeadNotInTail(fs);
  }

  /** Draining a non-empty list ends with its head. */
  lemma {:induction false} DrainFront(s: seq<int>)
    requires s != []
    ensures Drain(s) == Drain(s[1..]) + [s[0]]
  {
    assert s == [s[0]] + s[1..];
    DrainAppend([s[0]], s[1..]);
    assert Drain([s[0]]) == [s[0]];
  }

  /** Draining a list twice in reverse gives it back. */
  lemma {:induction false} DrainTwice(s: seq<int>)
    ensures Drain(Drain(s)) == s
    decreases |s|
  {
    if s != [] {
      var x, s' := s[|s| - 1], s[..|s| - 1];
      DrainAppend([x], Drain(s'));
      DrainTwice(s');
      assert Drain([x]) == [x];
      assert s == s' + [x];
    }
  }

  /**
   * LRU ordering: after frames `fs` are unpinned in this order (none of them
   * already tracked, no pin in between), the victims are first the frames
   * that were already in the list, oldest first, then `fs` in the order they
   * were unpinned.
   */
  lemma LruOrder(l: seq<int>, fs: seq<int>)
    requires NoDup(fs) && forall i :: 0 <= i < |fs| ==> fs[i] !in l
    ensures Drain(UnpinAll(l, fs)) == Drain(l) + fs
  {
    UnpinAllFresh(l, fs);
    DrainAppend(Drain(fs), l);
    DrainTwice(fs);
  }

  /** In a list without duplicates the head does not reappear in the tail, which has no duplicates either. */
  lemma HeadNotInTail(s: seq<int>)
    requires NoDup(s) && s != []
    ensures s[0] !in s[1..] && NoDup(s[1..])
  {
    assert forall i :: 0 <= i < |s[1..]| ==> s[1..][i] == s[i + 1];
  }

  /** A list without duplicates has as many elements as it has members. */
  lemma {:induction false} CardElems(s: seq<int>)
    requires NoDup(s)
    ensures |Elems(s)| == |s|
    decreases |s|
  {
    if s != [] {
      assert Elems(s) == {s[0]} + Elems(s[1..]);
      assert s[0] !in Elems(s[1..]);
      assert NoDup(s[1..]);
      CardElems(s[1..]);
    }
  }

  class LRUReplacer {
    /** max_size_: the capacity given at construction; it is recorded and never enforced. */
    const maxSize: nat
    /** LRUlist_: front is the most recently unpinned frame, back the next victim. */
    var list: seq<int>
    /** Key set of LRUhash_ (the list positions it maps each frame to are not modelled). */
    var hash: set<int>

    /** The list has no duplicates and the hash tracks exactly the listed frames. */
    ghost predicate Valid()
      reads this
    {
      NoDup(list) && hash == Elems(list)
    }

    constructor (numPages: nat)
      ensures Valid() && list == [] && maxSize == numPages
    {
      maxSize := numPages;
      list := [];
      hash := {};
    }

    /** Evict the least recently unpinned frame, if any. */
    method Victim() returns (ok: bool, frame: int)
      requires Valid()
      modifies this
      ensures Valid()
      ensures ok <==> old(list) != []
      ensures !ok ==> list == old(list) && hash == old(hash)
      ensures ok ==> frame == old(list)[|old(list)| - 1] && list == old(list)[..|old(list)| - 1]
      ensures ok ==> frame in old(hash)
      ensures ok ==> hash == old(hash) - {frame} && frame !in hash && |list| == |old(list)| - 1
      ensures ok ==> Drain(old(list)) == [frame] + Drain(list)
    {
      if list == [] {
        // The source leaves *frame_id unwritten here; its caller ignores it on failure.
        return false, -1;
      }
      frame := list[|list| - 1];
      var rest := list[..|list| - 1];
      assert list == rest + [frame];
      assert Elems(list) == Elems(rest) + {frame};
      assert frame !in rest;
      hash := hash - {frame};
      list := rest;
      ok := true;
    }

    /** Make `frame` ineligible for eviction; a no-op for an untracked frame. */
    method Pin(frame: int)
      requires Valid()
      modifies this
      ensures Valid()
      ensures list == Remove(old(list), frame) && hash == old(hash) - {frame}
      ensures frame !in old(hash) ==> list == old(list)
      ensures forall k :: 0 <= k < |old(list)| && old(list)[k] == frame ==>
        list == old(list)[..k] + old(list)[k + 1..]
    {
      if frame in hash {
        forall k | 0 <= k < |list| && list[k] == frame
          ensures Remove(list, frame) == list[..k] + list[k + 1..]
        {
          RemoveAt(list, k);
        }
        list := Remove(list, frame);
        hash := hash - {frame};
      }
    }

    /** Make `frame` eligible for eviction as the most recently used; a no-op if already tracked. */
    method Unpin(frame: int)
      requires Valid()
      modifies this
      ensures Valid()
      ensures list == Unpinned(old(list), frame)
      ensures frame in old(hash) ==> list == old(list) && hash == old(hash)
      ensures frame !in old(hash) ==> list == [frame] + old(list) && hash == old(hash) + {frame}
    {
      if frame in hash {
        return;
      }
      list := [frame] + list;
      hash := hash + {frame};
    }

    /** Number of frames that may be evicted. */
    method Size() returns (n: nat)
      requires Valid()
      ensures n == |hash|
    {
      CardElems(list);
      n := |list|;
    }
  }
}
