/** The mDNS address list: addresses with expiry times, handed out in turn. */
module AddressList {
  import opened Wrappers

  datatype Address = Address(ip: string, expiresAt: int)

  const MAX_UINT32 := 0xFFFF_FFFF
  const ADDRESS_TTL := 60

  predicate DistinctIPs(s: seq<Address>) {
    forall i, j :: 0 <= i < j < |s| ==> s[i].ip != s[j].ip
  }

  /** The addresses not yet expired, `nows[i]` being the clock when address `i` is looked at. */
  function Unexpired(s: seq<Address>, nows: seq<int>): seq<Address>
    requires |nows| == |s|
  {
    if s == [] then []
    else
      var n := |s| - 1;
      Unexpired(s[..n], nows[..n]) + if nows[n] < s[n].expiresAt then [s[n]] else []
  }

  /** Expiry keeps exactly the addresses whose time has not come. */
  lemma {:induction false} UnexpiredIsFilter(s: seq<Address>, nows: seq<int>, a: Address)
    requires |nows| == |s|
    ensures a in Unexpired(s, nows) <==> exists i :: 0 <= i < |s| && s[i] == a && nows[i] < a.expiresAt
  {
    if s != [] {
      var n := |s| - 1;
      UnexpiredIsFilter(s[..n], nows[..n], a);
      UnexpiredLast(s, nows);
      hide Unexpired;
      assert forall i :: 0 <= i < n ==> s[..n][i] == s[i] && nows[..n][i] == nows[i];
    }
  }

  lemma {:induction false} UnexpiredKeepsDistinct(s: seq<Address>, nows: seq<int>)
    requires |nows| == |s| && DistinctIPs(s)
    ensures DistinctIPs(Unexpired(s, nows))
    ensures forall i :: 0 <= i < |Unexpired(s, nows)| ==> Unexpired(s, nows)[i] in s
  {
    if s != [] {
      var n := |s| - 1;
      UnexpiredKeepsDistinct(s[..n], nows[..n]);
      UnexpiredLast(s, nows);
      hide Unexpired;
      var init := Unexpired(s[..n], nows[..n]);
      assert forall i :: 0 <= i < |init| ==> init[i] in s[..n];
      assert forall a :: a in s[..n] ==> a.ip != s[n].ip;
    }
  }

  /** And in their order: it treats the parts of a list one after the other. */
  lemma {:induction false} UnexpiredConcat(a: seq<Address>, b: seq<Address>, m: seq<int>, n: seq<int>)
    requires |m| == |a| && |n| == |b|
    ensures Unexpired(a + b, m + n) == Unexpired(a, m) + Unexpired(b, n)
    decreases |b|
  {
    if b == [] {
      assert a + b == a && m + n == m;
    } else {
      var k := |b| - 1;
      assert (a + b)[..|a + b| - 1] == a + b[..k] && (m + n)[..|a + b| - 1] == m + n[..k];
      UnexpiredConcat(a, b[..k], m, n[..k]);
    }
  }

  lemma UnexpiredLast(s: seq<Address>, nows: seq<int>)
    requires |nows| == |s| > 0
    ensures Unexpired(s, nows) == Unexpired(s[..|s| - 1], nows[..|s| - 1]) +
            if nows[|s| - 1] < s[|s| - 1].expiresAt then [s[|s| - 1]] else []
  {
  }

  predicate HasIP(s: seq<Address>, ip: string) {
    exists i :: 0 <= i < |s| && s[i].ip == ip
  }

  /** One address per IP, refreshed in place or added at the end. */
  function Refreshed(s: seq<Address>, ip: string, now: int): seq<Address> {
    if s == [] then [Address(ip, now + ADDRESS_TTL)]
    else if s[0].ip == ip then [Address(ip, now + ADDRESS_TTL)] + s[1..]
    else [s[0]] + Refreshed(s[1..], ip, now)
  }

  lemma {:induction false} RefreshedIPs(s: seq<Address>, ip: string, now: int, x: string)
    ensures HasIP(Refreshed(s, ip, now), x) <==> x == ip || HasIP(s, x)
  {
    var r := Refreshed(s, ip, now);
    HasIPCons(r, x);
    if s != [] {
      HasIPCons(s, x);
      if s[0].ip == ip {
        assert r[1..] == s[1..];
      } else {
        RefreshedIPs(s[1..], ip, now, x);
        assert r[1..] == Refreshed(s[1..], ip, now);
      }
    }
  }

  /** Place by place: the first address of that IP gets a minute from now, and everything else stays; a
      new IP goes to the end. */
  lemma {:induction false} RefreshedAt(s: seq<Address>, ip: string, now: int)
    ensures var r := Refreshed(s, ip, now);
            if HasIP(s, ip) then
              exists i :: 0 <= i < |s| && s[i].ip == ip && (forall j :: 0 <= j < i ==> s[j].ip != ip)
                          && r == s[i := Address(ip, now + 60)]
            else r == s + [Address(ip, now + 60)]
  {
    if s != [] {
      HasIPCons(s, ip);
      if s[0].ip == ip {
        assert s[0 := Address(ip, now + 60)] == [Address(ip, now + 60)] + s[1..];
      } else {
        RefreshedAt(s[1..], ip, now);
        if HasIP(s[1..], ip) {
          var i :| 0 <= i < |s| - 1 && s[1..][i].ip == ip && (forall j :: 0 <= j < i ==> s[1..][j].ip != ip)
                   && Refreshed(s[1..], ip, now) == s[1..][i := Address(ip, now + 60)];
          assert forall j :: 1 <= j < |s| ==> s[j] == s[1..][j - 1];
          assert s[i + 1 := Address(ip, now + 60)] == [s[0]] + s[1..][i := Address(ip, now + 60)];
          assert s[i + 1].ip == ip && forall j :: 0 <= j < i + 1 ==> s[j].ip != ip;
        } else {
          assert [s[0]] + (s[1..] + [Address(ip, now + 60)]) == s + [Address(ip, now + 60)];
        }
      }
    }
  }

  /** IPs stay distinct, and the address just added has its full time to live. */
  lemma {:induction false} RefreshedKeepsDistinct(s: seq<Address>, ip: string, now: int)
    requires DistinctIPs(s)
    ensures DistinctIPs(Refreshed(s, ip, now))
    ensures Address(ip, now + ADDRESS_TTL) in Refreshed(s, ip, now)
  {
    hide HasIP, DistinctIPs;
    var r := Refreshed(s, ip, now);
    DistinctCons(r);
    if s != [] {
      DistinctCons(s);
      if s[0].ip == ip {
        assert r[1..] == s[1..];
      } else {
        RefreshedKeepsDistinct(s[1..], ip, now);
        RefreshedIPs(s[1..], ip, now, s[0].ip);
        assert r[1..] == Refreshed(s[1..], ip, now);
      }
    } else {
      DistinctNone();
      assert r[1..] == [];
    }
  }

  lemma DistinctNone()
    ensures DistinctIPs([]) && forall x :: !HasIP([], x)
  {
  }

  lemma DistinctCons(s: seq<Address>)
    requires s != []
    ensures DistinctIPs(s) <==> !HasIP(s[1..], s[0].ip) && DistinctIPs(s[1..])
  {
    assert forall i :: 1 <= i < |s| ==> s[1..][i - 1] == s[i];
    assert forall i :: 0 <= i < |s| - 1 ==> s[1..][i] == s[i + 1];
  }

  lemma HasIPCons(s: seq<Address>, x: string)
    requires s != []
    ensures HasIP(s, x) <==> s[0].ip == x || HasIP(s[1..], x)
  {
    assert forall i :: 1 <= i < |s| ==> s[1..][i - 1] == s[i];
    assert forall i :: 0 <= i < |s| - 1 ==> s[1..][i] == s[i + 1];
  }

  lemma RefreshedStep(all: seq<Address>, i: nat, ip: string, now: int)
    requires i < |all|
    ensures all[i].ip == ip ==> Refreshed(all[i..], ip, now) == [Address(ip, now + ADDRESS_TTL)] + all[i + 1..]
    ensures all[i].ip != ip ==>
            all[..i] + Refreshed(all[i..], ip, now) == all[..i + 1] + Refreshed(all[i + 1..], ip, now)
  {
    assert all[i..][1..] == all[i + 1..];
  }

  lemma RefreshedEnd(all: seq<Address>, ip: string, now: int)
    ensures all[..|all|] + Refreshed(all[|all|..], ip, now) == all + [Address(ip, now + ADDRESS_TTL)]
  {
  }

  lemma UnexpiredNone()
    ensures Unexpired([], []) == []
  {
  }

  class AddressList {
    var backing: array<Address>
    var len: nat
    var counter: nat

    ghost predicate Valid()
      reads this
    {
      len <= backing.Length && counter <= MAX_UINT32
    }

    ghost function Addresses(): seq<Address>
      reads this, backing
      requires Valid()
    {
      backing[..len]
    }

    constructor ()
      ensures Valid() && fresh(backing) && Addresses() == [] && counter == 0
    {
      backing := new Address[0];
      len := 0;
      counter := 0;
    }

    /** Compacts the list in place. */
    method Expire(nows: seq<int>)
      requires Valid() && |nows| == len
      modifies this`len, backing
      ensures Valid() && Addresses() == Unexpired(old(Addresses()), nows)
    {
      hide Unexpired;
      var i := 0;
      var n := len;
      ghost var all := backing[..len];
      UnexpiredNone();
      for j := 0 to n
        invariant 0 <= i <= j && backing.Length >= n == |all|
        invariant forall k :: j <= k < n ==> backing[k] == all[k]
        invariant backing[..i] == Unexpired(all[..j], nows[..j])
      {
        var addr := backing[j];
        UnexpiredLast(all[..j + 1], nows[..j + 1]);
        assert all[..j + 1][..j] == all[..j] && nows[..j + 1][..j] == nows[..j];
        if nows[j] < addr.expiresAt {
          backing[i] := addr;
          assert backing[..i + 1] == backing[..i] + [addr];
          i := i + 1;
        }
      }
      assert all[..n] == all && nows[..n] == nows;
      len := i;
    }

    method Add(ip: string, now: int)
      requires Valid()
      modifies this`len, this`backing, backing
      ensures Valid() && Addresses() == Refreshed(old(Addresses()), ip, now)
      ensures backing == old(backing) || fresh(backing)
    {
      ghost var all := Addresses();
      hide Refreshed;
      for i := 0 to len
        invariant backing == old(backing) && len == old(len) && len <= backing.Length && backing[..len] == all
        invariant Refreshed(all, ip, now) == all[..i] + Refreshed(all[i..], ip, now)
      {
        RefreshedStep(all, i, ip, now);
        if backing[i].ip == ip {
          backing[i] := Address(ip, now + ADDRESS_TTL);
          assert backing[..len] == all[..i] + ([Address(ip, now + ADDRESS_TTL)] + all[i + 1..]);
          return;
        }
      }
      RefreshedEnd(all, ip, now);
      assert Refreshed(all, ip, now) == all + [Address(ip, now + ADDRESS_TTL)];
      if len == backing.Length {
        var current := backing[..len];
        var bigger := new Address[2 * len + 1](k => if 0 <= k < |current| then current[k] else Address("", 0));
        assert bigger[..len] == all;
        backing := bigger;
      }
      backing[len] := Address(ip, now + ADDRESS_TTL);
      len := len + 1;
      assert backing[..len] == all + [Address(ip, now + ADDRESS_TTL)];
    }

    /** The index is always in bounds; the counter starts again before it would overflow. */
    method Next() returns (ip: Option<string>)
      requires Valid()
      modifies this`counter
      ensures Valid()
      ensures len == 0 ==> ip == None && counter == old(counter)
      ensures len > 0 ==> ip == Some(Addresses()[Turn(old(counter)) % len].ip) && counter == Turn(old(counter)) + 1
      ensures len > 0 && old(counter) < 4294967295 ==>
                ip == Some(Addresses()[old(counter) % len].ip) && counter == old(counter) + 1
      ensures len > 0 && old(counter) == 4294967295 ==> ip == Some(Addresses()[0].ip) && counter == 1
    {
      var l := len;
      if l == 0 {
        return None;
      }
      if counter == MAX_UINT32 {
        counter := 0;
      }
      counter := counter + 1;
      return Some(backing[(counter - 1) % l].ip);
    }
  }

  /** The counter value that a call uses. */
  function Turn(counter: nat): nat {
    if counter == MAX_UINT32 then 0 else counter
  }

  /** The values used by `n` calls in a row. */
  function Turns(counter: nat, n: nat): seq<nat>
    decreases n
  {
    if n == 0 then [] else [Turn(counter)] + Turns(Turn(counter) + 1, n - 1)
  }

  lemma {:induction false} TurnsConsecutive(counter: nat, n: nat)
    requires counter + n <= MAX_UINT32
    ensures |Turns(counter, n)| == n && forall i :: 0 <= i < n ==> Turns(counter, n)[i] == counter + i
    decreases n
  {
    if n > 0 {
      TurnsConsecutive(counter + 1, n - 1);
    }
  }

  /** As many calls in a row as there are addresses, without a restart of the counter, give each
      address exactly once. */
  lemma RoundRobin(counter: nat, l: nat, k: nat)
    requires 0 < l && counter + l <= MAX_UINT32 && k < l
    ensures |Turns(counter, l)| == l
    ensures exists i :: 0 <= i < l && Turns(counter, l)[i] % l == k
    ensures forall i, j :: 0 <= i < j < l ==> Turns(counter, l)[i] % l != Turns(counter, l)[j] % l
  {
    TurnsConsecutive(counter, l);
    var c := counter % l;
    var i := if k >= c then k - c else k - c + l;
    ModShift(counter, i, l);
    assert Turns(counter, l)[i] % l == k;
    forall i, j | 0 <= i < j < l ensures Turns(counter, l)[i] % l != Turns(counter, l)[j] % l {
      ModShift(counter, i, l);
      ModShift(counter, j, l);
    }
  }

  lemma ModShift(c: nat, i: nat, l: nat)
    requires 0 < l && i < l
    ensures (c + i) % l == if c % l + i < l then c % l + i else c % l + i - l
  {
    var q, r := c / l, c % l;
    assert c == q * l + r;
    if r + i < l {
      DivUnique(c + i, q, r + i, l);
    } else {
      assert c + i == (q + 1) * l + (r + i - l);
      DivUnique(c + i, q + 1, r + i - l, l);
    }
  }

  lemma DivUnique(n: nat, q: nat, r: nat, l: nat)
    requires 0 < l && n == q * l + r && r < l
    ensures n % l == r
  {
    var d := n / l - q;
    assert n == n / l * l + n % l;
    assert d * l == r - n % l;
    MultipleIsFar(d, l);
  }

  lemma MultipleIsFar(d: int, l: nat)
    ensures d > 0 ==> d * l >= l
    ensures d < 0 ==> d * l <= -(l as int)
  {
  }
}
