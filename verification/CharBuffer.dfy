/** The printers' work on a buffer of characters: gaps opened and digits moved four at a time. */
module CharBuffer {
  import opened Numerals

  function RoundDown4(n: nat): nat {
    n / 4 * 4
  }

  lemma Fours(n: nat) returns (k: nat)
    ensures RoundDown4(n) == k * 4 <= n < k * 4 + 4
  {
    k := n / 4;
  }

  function BlockAt(at: nat, k: int): int {
    at + k * 4
  }

  lemma Block(at: nat, k: int)
    ensures BlockAt(at, k) == at + k * 4 && (k >= 0 <==> BlockAt(at, k) >= at)
    ensures k == -1 ==> BlockAt(at, k) == at - 4
    ensures BlockAt(at, k - 1) == BlockAt(at, k) - 4
  {
  }

  /** Copies four characters, all read before any is written. */
  method MoveFour(str: array<char>, s: nat, t: nat)
    requires s + 4 <= str.Length && t + 4 <= str.Length
    modifies str
    ensures forall i :: t <= i < t + 4 ==> str[i] == old(str[i - (t - s)])
    ensures forall i :: 0 <= i < str.Length && !(t <= i < t + 4) ==> str[i] == old(str[i])
  {
    str[t], str[t + 1], str[t + 2], str[t + 3] := str[s], str[s + 1], str[s + 2], str[s + 3];
  }

  /** What has been moved right by gap: everything from s on, as far as c; the rest is as it was below s+gap. */
  ghost predicate Moved(was: seq<char>, now: seq<char>, cstart: nat, s: int, c: nat, gap: nat) {
    && |was| == |now|
    && (forall i :: s <= i < c && cstart <= i && 0 <= i && i + gap < |now| ==> now[i + gap] == was[i])
    && (forall i :: 0 <= i < s + gap && i < |now| ==> now[i] == was[i])
    && (forall i :: 0 <= i < cstart && i < |now| ==> now[i] == was[i])
  }

  lemma MovedFour(was: seq<char>, before: seq<char>, now: seq<char>, cstart: nat, s: nat, c: nat, gap: nat)
    requires Moved(was, before, cstart, s + 4, c, gap) && |now| == |before| && gap > 0 && cstart <= s + gap && s + gap + 4 <= |now|
    requires forall i :: s + gap <= i < s + gap + 4 ==> now[i] == before[i - gap]
    requires forall i :: 0 <= i < |now| && !(s + gap <= i < s + gap + 4) ==> now[i] == before[i]
    ensures Moved(was, now, cstart, s, c, gap)
  {
    forall i: int | s <= i < c && cstart <= i && 0 <= i && i + gap < |now|
      ensures now[i + gap] == was[i]
    {
      if i < s + 4 {
        assert now[i + gap] == before[i];
      } else {
        assert now[i + gap] == before[i + gap];
      }
    }
  }

  lemma AllMoved(was: seq<char>, now: seq<char>, cstart: nat, c: nat, gap: nat, s: int)
    requires Moved(was, now, cstart, s, c, gap) && s <= cstart <= c && c + gap <= |now|
    ensures now[cstart + gap..c + gap] == was[cstart..c] && now[..cstart] == was[..cstart]
  {
    var t, u := now[cstart + gap..c + gap], was[cstart..c];
    forall i | 0 <= i < |t|
      ensures t[i] == u[i]
    {
      assert was[cstart + i] == now[cstart + i + gap];
    }
    assert t == u;
    SameSlice(now[..cstart], was[..cstart]);
  }

  lemma NothingMoved(was: seq<char>, cstart: nat, s: int, c: nat, gap: nat)
    requires c <= s
    ensures Moved(was, was, cstart, s, c, gap)
  {
  }

  /** Moves str[dotat..c] one place to the right, from the right end, by fours. */
  method OpenGap(str: array<char>, dotat: nat, c: nat)
    requires dotat < c && c + 4 < str.Length
    modifies str
    ensures str[dotat + 1..c + 1] == old(str[dotat..c]) && str[..dotat] == old(str[..dotat])
  {
    hide *;
    ghost var was := str[..];
    ghost var k: int := Fours(c - dotat);
    var s: int := dotat + RoundDown4(c - dotat);
    NothingMoved(was, dotat, s + 4, c, 1);
    Block(dotat, k);
    while s >= dotat
      invariant -1 <= k && s == BlockAt(dotat, k) <= c && (k >= 0 <==> s >= dotat) && (k < 0 ==> s == dotat - 4)
      invariant Moved(was, str[..], dotat, s + 4, c, 1)
    {
      Block(dotat, k);
      Block(dotat, k - 1);
      k := k - 1;
      ghost var before := str[..];
      MoveFour(str, s, s + 1);
      MovedFour(was, before, str[..], dotat, s, c, 1);
      s := s - 4;
    }
    AllMoved(was, str[..], dotat, c, 1, s + 4);
  }

  /** Moves str[cstart..c] to the right by gap places; the last place a move may start is backed
      off so that nothing beyond the longest string is touched. */
  method ShiftRight(str: array<char>, cstart: nat, c: nat, gap: nat)
    requires cstart <= 1 && cstart < c && 2 <= gap <= 7 && c + gap < str.Length && str.Length >= 12
    modifies str
    ensures str[cstart + gap..c + gap] == old(str[cstart..c]) && str[..cstart] == old(str[..cstart])
  {
    hide *;
    ghost var was := str[..];
    ghost var k := Fours(c - cstart);
    var t: int := cstart + RoundDown4(c - cstart) + gap;
    if t > str.Length - 5 {
      t := str.Length - 5;
    }
    var s := t - gap;
    NothingMoved(was, cstart, s + 4, c, gap);
    while s >= 0
      invariant -4 <= s && t == s + gap <= str.Length - 5 && Moved(was, str[..], cstart, s + 4, c, gap)
    {
      ghost var before := str[..];
      MoveFour(str, s, t);
      MovedFour(was, before, str[..], cstart, s, c, gap);
      s, t := s - 4, t - 4;
    }
    s := s + 3;
    while s >= cstart
      invariant -1 <= s && t + 3 == s + gap < str.Length - 1 && Moved(was, str[..], cstart, s + 1, c, gap)
    {
      ghost var before := str[..];
      str[t + 3] := str[s];
      MovedOne(was, before, str[..], cstart, s, c, gap);
      s, t := s - 1, t - 1;
    }
    AllMoved(was, str[..], cstart, c, gap, s + 1);
  }

  lemma MovedOne(was: seq<char>, before: seq<char>, now: seq<char>, cstart: nat, s: nat, c: nat, gap: nat)
    requires Moved(was, before, cstart, s + 1, c, gap) && cstart <= s && s + gap < |before| && gap > 0
    requires now == before[s + gap := before[s]]
    ensures Moved(was, now, cstart, s, c, gap)
  {
  }
}
