/** Free lists threaded through an array by index: page_free_list and env_free_list. */
module FreeList {
  import opened Counting

  const NULL: int := -1

  /** Following the links from head visits exactly the slots of s, in order. */
  ghost predicate Chain(head: int, link: seq<int>, s: seq<nat>)
    decreases |s|
  {
    if s == [] then head == NULL
    else head == s[0] && s[0] < |link| && Chain(link[s[0]], link, s[1..])
  }

  lemma {:induction false} ChainFrame(head: int, link: seq<int>, s: seq<nat>, f: nat, v: int)
    requires Chain(head, link, s) && f < |link| && f !in s
    ensures Chain(head, link[f := v], s)
    decreases |s|
  {
    if s != [] {
      ChainFrame(link[s[0]], link, s[1..], f, v);
    }
  }

  /** Linking a new slot behind the last one. */
  lemma {:induction false} ChainAppend(head: int, link: seq<int>, s: seq<nat>, x: nat)
    requires Chain(head, link, s) && s != [] && Distinct(s) && x !in s && x < |link|
    requires forall k :: 0 <= k < |s| ==> s[k] < |link|
    ensures Chain(head, link[s[|s| - 1] := x][x := NULL], s + [x])
    decreases |s|
  {
    var link' := link[s[|s| - 1] := x][x := NULL];
    assert (s + [x])[1..] == s[1..] + [x];
    if |s| == 1 {
      assert Chain(NULL, link', []);
      assert Chain(x, link', [x]);
    } else {
      ChainAppend(link[s[0]], link, s[1..], x);
      assert s[0] != s[|s| - 1] && link'[s[0]] == link[s[0]];
    }
  }

  /** A slot pushed while it is on the list: the links run in a circle, and no list fits them. */
  lemma CycleHasNoList(head: int, link: seq<int>, s: seq<nat>, f: nat, link': seq<int>)
    requires Chain(head, link, s) && f in s && f < |link| && link' == link[f := head]
    ensures forall t :: !Chain(f, link', t)
  {
    forall t ensures !Chain(f, link', t) {
      CycleShrinks(head, link, s, f, t);
    }
  }

  /** Any list from f would come round to f again and be a shorter list from f. */
  lemma {:induction false} CycleShrinks(head: int, link: seq<int>, s: seq<nat>, f: nat, t: seq<nat>)
    requires Chain(head, link, s) && f in s && f < |link|
    ensures !Chain(f, link[f := head], t)
    decreases |t|
  {
    if t != [] && Chain(f, link[f := head], t) {
      var t' := ComesRound(head, link, s, f, head, t[1..]);
      CycleShrinks(head, link, s, f, t');
    }
  }

  /** From any place on the old list at or before f, the new links lead to f. */
  lemma {:induction false} ComesRound(head: int, link: seq<int>, s: seq<nat>, f: nat, h: int, t: seq<nat>) returns (t': seq<nat>)
    requires Chain(head, link, s) && f in s && f < |link| && Chain(head, link[f := h], t)
    ensures Chain(f, link[f := h], t') && |t'| <= |t|
    decreases |s|
  {
    if s[0] == f {
      t' := t;
    } else {
      t' := ComesRound(link[s[0]], link, s[1..], f, h, t[1..]);
    }
  }
}
