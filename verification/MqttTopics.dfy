/** Topic filters of the MQTT 3.1.1 standard, section 4.7.1, on strings cut at `/`. */
module MqttTopics {
  import opened Regex

  /** Position of the first `/`, or the length. */
  function FirstSlash(s: string): (k: nat)
    ensures k <= |s| && NoSlash(s[..k]) && (k < |s| ==> s[k] == '/')
  {
    if s == "" || s[0] == '/' then 0
    else
      assert forall k :: 0 <= k <= |s[1..]| ==> s[..k + 1] == [s[0]] + s[1..][..k];
      1 + FirstSlash(s[1..])
  }

  /** The levels of a topic name or filter; never empty. */
  function Split(s: string): (levels: seq<string>)
    ensures levels != []
  {
    var k := FirstSlash(s);
    if k == |s| then [s] else [s[..k]] + Split(s[k + 1..])
  }

  lemma {:induction false} FirstSlashAt(s: string, n: nat)
    requires n <= |s| && NoSlash(s[..n]) && (n < |s| ==> s[n] == '/')
    ensures FirstSlash(s) == n
  {
    if n > 0 {
      assert s[..n][0] == s[0];
      assert s[1..][..n - 1] == s[..n][1..];
      FirstSlashAt(s[1..], n - 1);
    }
  }

  lemma FirstSlashUnique(u: string, v: string)
    requires NoSlash(u)
    ensures FirstSlash(u) == |u|
    ensures FirstSlash(u + "/" + v) == |u|
  {
    assert u[..|u|] == u && (u + "/" + v)[..|u|] == u;
    FirstSlashAt(u, |u|);
    FirstSlashAt(u + "/" + v, |u|);
  }

  lemma SplitOne(u: string)
    requires NoSlash(u)
    ensures Split(u) == [u]
  {
    FirstSlashUnique(u, "");
  }

  lemma SplitCons(u: string, v: string)
    requires NoSlash(u)
    ensures Split(u + "/" + v) == [u] + Split(v)
  {
    FirstSlashUnique(u, v);
    var s := u + "/" + v;
    assert s[..|u|] == u && s[|u| + 1..] == v;
  }

  predicate PlainLevel(l: string) { NoSlash(l) && '+' !in l && '#' !in l }

  /** A filter's levels are valid when wildcards fill their level and `#` is last. */
  predicate ValidFilter(levels: seq<string>) {
    && levels != []
    && (PlainLevel(levels[0]) || levels[0] == "+" || levels == ["#"])
    && (|levels| > 1 ==> ValidFilter(levels[1..]))
  }

  predicate LevelMatches(filter: string, level: string) {
    if filter == "+" then NoSlash(level) else level == filter
  }

  /** Sections 4.7.1.2 and 4.7.1.3: `#` stands for any number of levels including the parent, `+`
      for exactly one. */
  predicate FilterMatches(filter: seq<string>, topic: seq<string>) {
    if filter == [] then topic == []
    else if filter[0] == "#" then true
    else topic != [] && LevelMatches(filter[0], topic[0]) && FilterMatches(filter[1..], topic[1..])
  }

  predicate TopicMatches(filter: string, topic: string) {
    FilterMatches(Split(filter), Split(topic))
  }

  // ---------------------------------------------------------------- validity on the characters

  /** Section 4.7.1: a wildcard fills its level, and `#` ends the filter. */
  predicate WellPlaced(f: string, i: nat)
    requires i < |f|
  {
    && (f[i] == '+' || f[i] == '#' ==> i == 0 || f[i - 1] == '/')
    && (f[i] == '+' ==> i + 1 == |f| || f[i + 1] == '/')
    && (f[i] == '#' ==> i + 1 == |f|)
  }

  predicate AllWellPlaced(f: string) {
    forall i :: 0 <= i < |f| ==> WellPlaced(f, i)
  }

  lemma HeadLevelIff(u: string, last: bool)
    requires NoSlash(u)
    ensures (PlainLevel(u) || u == "+" || (last && u == "#")) <==>
            forall i :: 0 <= i < |u| ==>
              && (u[i] == '+' ==> i == 0 && |u| == 1)
              && (u[i] == '#' ==> i == 0 && |u| == 1 && last)
  {
    if |u| == 1 {
      assert u == [u[0]];
    }
    if !PlainLevel(u) {
      var i :| 0 <= i < |u| && (u[i] == '+' || u[i] == '#');
    }
  }

  /** A filter is valid exactly when each of its characters is well placed. */
  lemma {:induction false} ValidFilterIff(f: string)
    ensures ValidFilter(Split(f)) <==> AllWellPlaced(f)
    decreases |f|
  {
    hide PlainLevel;
    var k := FirstSlash(f);
    var u := f[..k];
    HeadLevelIff(u, k == |f|);
    if k == |f| {
      assert u == f && Split(f) == [f];
      assert [f] == ["#"] <==> f == "#";
      assert forall i :: 0 <= i < |f| ==> f[i] != '/';
      assert forall i :: 0 <= i < |f| ==>
          (WellPlaced(f, i) <==> ((f[i] == '+' || f[i] == '#') ==> i == 0 && |f| == 1));
    } else {
      var rest := f[k + 1..];
      ValidFilterIff(rest);
      assert Split(f) == [u] + Split(rest);
      assert Split(f)[1..] == Split(rest);
      CutAtSlash(f, k);
    }
  }

  lemma CutAtSlash(f: string, k: nat)
    requires k < |f| && f[k] == '/' && NoSlash(f[..k])
    ensures AllWellPlaced(f) <==>
            && (forall i :: 0 <= i < k ==>
                  && (f[..k][i] == '+' ==> i == 0 && k == 1) && f[..k][i] != '#')
            && AllWellPlaced(f[k + 1..])
  {
    var rest := f[k + 1..];
    assert forall i :: 0 <= i < k ==> f[i] == f[..k][i] && f[i] != '/';
    assert forall i :: 0 <= i < |rest| ==> rest[i] == f[k + 1 + i];
    assert forall i :: 0 <= i < |rest| ==> (WellPlaced(rest, i) <==> WellPlaced(f, k + 1 + i));
    assert WellPlaced(f, k);
    if AllWellPlaced(f) {
      forall i | 0 <= i < k ensures (f[i] == '+' ==> i == 0 && k == 1) && f[i] != '#' {
        assert WellPlaced(f, i);
      }
      forall i | 0 <= i < |rest| ensures WellPlaced(rest, i) {
        assert WellPlaced(f, k + 1 + i);
      }
    }
    if (forall i :: 0 <= i < k ==> (f[..k][i] == '+' ==> i == 0 && k == 1) && f[..k][i] != '#') && AllWellPlaced(rest) {
      forall i | 0 <= i < |f| ensures WellPlaced(f, i) {
        if i > k {
          assert WellPlaced(rest, i - k - 1);
        }
      }
    }
  }
}
