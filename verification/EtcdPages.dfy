/** One etcd search call over a sorted snapshot in which create revisions may tie: what it returns,
    when it keeps every match, and when it is answered at all. */
module EtcdPages {
  import opened Wrappers
  import opened Like
  import opened EtcdKeysLike

  // ---------------------------------------------------------------- the entries reached

  /** Entry by entry: reached are the matches that no earlier window shadows. */
  lemma {:induction false} ReachedIff(kvs: seq<KV>, n: nat, first: nat, base: string, p: string, after: int, x: nat)
    requires DistinctKeys(kvs) && n <= |kvs| && first > 0 && x < |kvs|
    ensures kvs[x] in Reached(kvs, n, first, base, p, after) <==>
            x < n && Hit(kvs[x], base, p, after) && !Shadowed(kvs, x, first)
  {
    hide Hit, Shadowed;
    if n > 0 {
      ReachedIff(kvs, n - 1, first, base, p, after, x);
    }
  }

  lemma {:induction false} ReachedCount(kvs: seq<KV>, n: nat, first: nat, base: string, p: string, after: int)
    requires n <= |kvs| && first > 0
    ensures |Reached(kvs, n, first, base, p, after)| <= |Selected(kvs[..n], base, p, after)|
    ensures |Reached(kvs, n, first, base, p, after)| == |Selected(kvs[..n], base, p, after)| <==>
            forall i :: 0 <= i < n && Hit(kvs[i], base, p, after) ==> !Shadowed(kvs, i, first)
  {
    hide Hit, Shadowed, Selected;
    if n > 0 {
      ReachedCount(kvs, n - 1, first, base, p, after);
      SelectedSnoc(kvs, n - 1, base, p, after);
    } else {
      SelectedLast(kvs[..0], base, p, after);
    }
  }

  /** The place just behind the last entry of a full page. */
  lemma {:induction false} ReachedAt(kvs: seq<KV>, n: nat, first: nat, base: string, p: string, after: int, want: nat)
    returns (x: nat)
    requires n <= |kvs| && first > 0 && 0 < want <= |Reached(kvs, n, first, base, p, after)|
    ensures 0 < x <= n && Hit(kvs[x - 1], base, p, after)
    ensures Reached(kvs, n, first, base, p, after)[..want] == Reached(kvs, x, first, base, p, after)
    ensures |Reached(kvs, x, first, base, p, after)| == want == |Reached(kvs, x - 1, first, base, p, after)| + 1
    ensures Reached(kvs, x, first, base, p, after)[want - 1] == kvs[x - 1]
  {
    hide Hit, Shadowed;
    if want <= |Reached(kvs, n - 1, first, base, p, after)| {
      x := ReachedAt(kvs, n - 1, first, base, p, after, want);
    } else {
      x := n;
    }
  }

  lemma {:induction false} SelectedTail(kvs: seq<KV>, x: nat, y: nat, base: string, p: string, after: int)
    requires x <= y <= |kvs|
    ensures |Selected(kvs[..x], base, p, after)| <= |Selected(kvs[..y], base, p, after)|
    ensures |Selected(kvs[..x], base, p, after)| == |Selected(kvs[..y], base, p, after)| <==>
            forall i :: x <= i < y ==> !Hit(kvs[i], base, p, after)
    decreases y - x
  {
    hide Hit, Selected;
    if x < y {
      SelectedTail(kvs, x, y - 1, base, p, after);
      SelectedSnoc(kvs, y - 1, base, p, after);
    }
  }

  /** Cutting the selection behind entry x - 1 and going on after its revision loses exactly the
      later matches that share it. */
  lemma {:induction false} SelectedBehind(kvs: seq<KV>, x: nat, y: nat, base: string, p: string, after: int)
    requires Sorted(kvs) && 0 < x <= y <= |kvs| && Hit(kvs[x - 1], base, p, after)
    ensures var cut := kvs[x - 1].createRev;
            var a, b := Selected(kvs[..x], base, p, after), Selected(kvs[..y], base, p, cut);
            var all := Selected(kvs[..y], base, p, after);
            && |a| + |b| <= |all|
            && (|a| + |b| == |all| <==>
                forall i :: x <= i < y && Hit(kvs[i], base, p, after) ==> kvs[i].createRev != cut)
            && (|a| + |b| == |all| ==> a + b == all)
    decreases y - x
  {
    hide Hit, Selected, LikePattern;
    var cut := kvs[x - 1].createRev;
    if x == y {
      NothingAfter(kvs[..y], base, p, cut);
    } else {
      SelectedBehind(kvs, x, y - 1, base, p, after);
      SelectedSnoc(kvs, y - 1, base, p, after);
      SelectedSnoc(kvs, y - 1, base, p, cut);
      HitIsAfter(kvs[x - 1], base, p, after);
      HitBeyond(kvs[y - 1], base, p, after, cut);
    }
  }

  // ---------------------------------------------------------------- when one call keeps everything

  /** The place behind the want-th match among the first `n` entries, or `n`. */
  function PageEnd(kvs: seq<KV>, n: nat, base: string, p: string, after: int, want: nat): (e: nat)
    requires n <= |kvs|
    ensures e <= n && (want > 0 && n > 0 ==> e > 0)
  {
    if n > 0 && want > 0 && |Selected(kvs[..n - 1], base, p, after)| >= want
    then PageEnd(kvs, n - 1, base, p, after, want) else n
  }

  lemma {:induction false} PageEndIsLeast(kvs: seq<KV>, n: nat, base: string, p: string, after: int, want: nat)
    requires n <= |kvs| && want > 0
    ensures var e := PageEnd(kvs, n, base, p, after, want);
            && (e < n ==> |Selected(kvs[..e], base, p, after)| >= want)
            && (forall x :: 0 <= x < e ==> |Selected(kvs[..x], base, p, after)| < want)
  {
    hide Selected;
    if n > 0 {
      if |Selected(kvs[..n - 1], base, p, after)| >= want {
        PageEndIsLeast(kvs, n - 1, base, p, after, want);
      } else {
        forall x | 0 <= x < n ensures |Selected(kvs[..x], base, p, after)| < want {
          SelectedTail(kvs, x, n - 1, base, p, after);
        }
      }
    }
  }

  /** Nothing wanted gets lost by this call: no match up to the end of the page is shadowed or out of
      the largest window, and no later match ties with the last of the page. */
  predicate KeepsAll(kvs: seq<KV>, base: string, p: string, after: int, want: nat) {
    var e, first := PageEnd(kvs, |kvs|, base, p, after, want), FirstFetch(want);
    && (forall i :: 0 <= i < e && Hit(kvs[i], base, p, after) ==> i < Cap(first) && !Shadowed(kvs, i, first))
    && (forall i :: e <= i < |kvs| && Hit(kvs[i], base, p, after) ==> kvs[i].createRev != kvs[e - 1].createRev)
  }

  /** A page that ends behind entry x - 1. */
  lemma FullPageKeepsAllIff(kvs: seq<KV>, base: string, p: string, after: int, want: nat, x: nat)
    requires want > 0 && 0 < x <= Window(kvs, Cap(FirstFetch(want)))
    requires |Reached(kvs, x, FirstFetch(want), base, p, after)| == want ==
             |Reached(kvs, x - 1, FirstFetch(want), base, p, after)| + 1
    ensures KeepsAll(kvs, base, p, after, want) <==>
            && (forall i :: 0 <= i < x && Hit(kvs[i], base, p, after) ==> !Shadowed(kvs, i, FirstFetch(want)))
            && (forall i :: x <= i < |kvs| && Hit(kvs[i], base, p, after) ==> kvs[i].createRev != kvs[x - 1].createRev)
  {
    hide Hit, Selected, Reached, Shadowed, PageEnd, Cap;
    var e, first := PageEnd(kvs, |kvs|, base, p, after, want), FirstFetch(want);
    PageEndIsLeast(kvs, |kvs|, base, p, after, want);
    ReachedCount(kvs, x, first, base, p, after);
    ReachedCount(kvs, x - 1, first, base, p, after);
    ReachedCount(kvs, e, first, base, p, after);
    assert e <= x;
    if e < x {
      ReachedGrows(kvs, e, x - 1, first, base, p, after);
    }
  }

  lemma LastPageKeepsAllIff(kvs: seq<KV>, base: string, p: string, after: int, want: nat)
    requires want > 0 && |kvs| < Cap(FirstFetch(want))
    requires |Reached(kvs, |kvs|, FirstFetch(want), base, p, after)| < want
    ensures KeepsAll(kvs, base, p, after, want) <==>
            forall i :: 0 <= i < |kvs| && Hit(kvs[i], base, p, after) ==> !Shadowed(kvs, i, FirstFetch(want))
  {
    hide Hit, Selected, Reached, Shadowed, PageEnd, Cap;
    var e, first := PageEnd(kvs, |kvs|, base, p, after, want), FirstFetch(want);
    PageEndIsLeast(kvs, |kvs|, base, p, after, want);
    ReachedCount(kvs, |kvs|, first, base, p, after);
    ReachedCount(kvs, e, first, base, p, after);
    ReachedGrows(kvs, e, |kvs|, first, base, p, after);
  }

  /** A call that fills its page: what it returned and what lies behind it is everything exactly
      when the call keeps all. */
  lemma FullPage(kvs: seq<KV>, base: string, p: string, after: int, want: nat, hits: seq<KV>)
    requires Sorted(kvs) && Expected(kvs, base, p, after, want) == Answer(hits, true)
    ensures |hits| == want > 0
    ensures var all, more := Selected(kvs, base, p, after), Selected(kvs, base, p, hits[|hits| - 1].createRev);
            && |hits| + |more| <= |all|
            && (|hits| + |more| == |all| <==> KeepsAll(kvs, base, p, after, want))
            && (|hits| + |more| == |all| ==> hits + more == all)
    ensures Increasing(kvs) ==> KeepsAll(kvs, base, p, after, want)
  {
    hide Hit, Selected, Reached, Shadowed, KeepsAll, Cap;
    var first := FirstFetch(want);
    var n := Window(kvs, Cap(first));
    var x := ReachedAt(kvs, n, first, base, p, after, want);
    assert kvs[..|kvs|] == kvs;
    SelectedBehind(kvs, x, |kvs|, base, p, after);
    ReachedCount(kvs, x, first, base, p, after);
    FullPageKeepsAllIff(kvs, base, p, after, want, x);
    if |Selected(kvs[..x], base, p, after)| == want {
      ReachedIsSelected(kvs, x, first, base, p, after);
    }
    IncreasingIsNeverShadowed(kvs, first);
  }

  lemma IncreasingIsNeverShadowed(kvs: seq<KV>, first: nat)
    requires first > 0
    ensures Increasing(kvs) ==> forall i :: 0 <= i < |kvs| ==> !Shadowed(kvs, i, first)
  {
  }

  lemma {:induction false} LastPage(kvs: seq<KV>, base: string, p: string, after: int, want: nat, hits: seq<KV>)
    requires Expected(kvs, base, p, after, want) == Answer(hits, false)
    ensures |hits| <= |Selected(kvs, base, p, after)|
    ensures |hits| == |Selected(kvs, base, p, after)| <==> KeepsAll(kvs, base, p, after, want)
    ensures |hits| == |Selected(kvs, base, p, after)| ==> hits == Selected(kvs, base, p, after)
    ensures Increasing(kvs) && (want > 0 || |kvs| <= 8192) ==> KeepsAll(kvs, base, p, after, want)
  {
    var first := FirstFetch(want);
    var n := Window(kvs, Cap(first));
    CapUnpaged();
    if want > 0 {
      LastPageKeepsAllIff(kvs, base, p, after, want);
    } else {
      UnpagedKeepsAllIff(kvs, base, p, after);
    }
    hide Hit, Selected, Reached, Shadowed, KeepsAll, Cap;
    assert kvs[..|kvs|] == kvs;
    ReachedCount(kvs, n, first, base, p, after);
    SelectedTail(kvs, n, |kvs|, base, p, after);
    if |hits| == |Selected(kvs, base, p, after)| {
      ReachedIsSelected(kvs, n, first, base, p, after);
      SelectedGrows(kvs, n, |kvs|, base, p, after);
    }
    IncreasingIsNeverShadowed(kvs, first);
  }

  lemma CapUnpaged()
    ensures Cap(1024) == 8192
  {
    assert Cap(1024) == Cap(2048) == Cap(4096) == Cap(8192) == 8192;
  }

  lemma UnpagedKeepsAllIff(kvs: seq<KV>, base: string, p: string, after: int)
    ensures KeepsAll(kvs, base, p, after, 0) <==>
            forall i :: 0 <= i < |kvs| && Hit(kvs[i], base, p, after) ==> i < 8192 && !Shadowed(kvs, i, 1024)
  {
    hide Hit, Shadowed;
    CapUnpaged();
  }

  /** A call without page size, entry by entry: it returns the matches among the first 8192 entries
      that do not share their revision with the end of a smaller window. */
  lemma UnpagedReturnsIff(kvs: seq<KV>, base: string, p: string, after: int, x: nat)
    requires DistinctKeys(kvs) && x < |kvs|
    ensures Expected(kvs, base, p, after, 0).Answer?
    ensures kvs[x] in Expected(kvs, base, p, after, 0).hits <==>
            x < 8192 && Hit(kvs[x], base, p, after) && !Shadowed(kvs, x, 1024)
  {
    CapUnpaged();
    ReachedIff(kvs, Window(kvs, 8192), 1024, base, p, after, x);
  }

  /** And as a whole: it is complete exactly when every match is one of those. */
  lemma UnpagedCompleteIff(kvs: seq<KV>, base: string, p: string, after: int)
    ensures Expected(kvs, base, p, after, 0).Answer?
    ensures Expected(kvs, base, p, after, 0).hits == Selected(kvs, base, p, after) <==>
            forall i :: 0 <= i < |kvs| && Hit(kvs[i], base, p, after) ==> i < 8192 && !Shadowed(kvs, i, 1024)
  {
    hide Hit, Shadowed, Selected, Reached, KeepsAll, Cap;
    LastPage(kvs, base, p, after, 0, Expected(kvs, base, p, after, 0).hits);
    UnpagedKeepsAllIff(kvs, base, p, after);
  }

  // ---------------------------------------------------------------- when a call is answered

  /** A call that may read often enough is answered exactly when it asks for no page size, or its
      largest window is longer than the key range, or the page can be filled from that window. */
  lemma AnsweredIff(kvs: seq<KV>, base: string, req: Request, rev: int, after: int, calls: nat, hits: seq<KV>,
                    res: Result)
    requires Sorted(kvs) && Promised(kvs, base, req, rev, after, calls, hits, res)
    requires calls >= Rounds(FirstFetch(Want(req)))
    ensures var want, first := Want(req), FirstFetch(Want(req));
            var found := |Reached(kvs, Window(kvs, Cap(first)), first, base, req.pattern, after)|;
            && (res.Page? <==> want == 0 || |kvs| < Cap(first) || found >= want)
            && (res.Page? && res.token.Some? <==> want > 0 && found >= want)
  {
    hide Reached, Sorted, Cap, Sound;
  }
}
