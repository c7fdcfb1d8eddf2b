/** The computations in `Root.render` of the graph page: the largest tid and
    the width of its decimal form, left zero-padding of tids, and the
    grouping of each group's representative comments into "agree" and
    "disagree" lists. */
module Vis2 {
  import opened Common

  // ---------------------------------------------------------------------------
  // maxTid and tidWidth

  /** The largest tid in the list, or -1 if there is none larger. */
  function MaxTidOf(comments: seq<Comment>): (r: int)
    ensures r >= -1
    ensures forall i | 0 <= i < |comments| :: comments[i].tid <= r
    ensures r == -1 || exists i | 0 <= i < |comments| :: comments[i].tid == r
  {
    if comments == [] then -1
    else
      var m := MaxTidOf(comments[..|comments| - 1]);
      var last := comments[|comments| - 1].tid;
      if last > m then last else m
  }

  /** The `maxTid` loop: starts at -1 and raises it to every larger tid. */
  method MaxTid(comments: seq<Comment>) returns (maxTid: int)
    ensures maxTid == MaxTidOf(comments)
    ensures comments == [] ==> maxTid == -1
    ensures forall i | 0 <= i < |comments| :: comments[i].tid <= maxTid
    ensures maxTid == -1 || exists i | 0 <= i < |comments| :: comments[i].tid == maxTid
  {
    maxTid := -1;
    var i := 0;
    while i < |comments|
      invariant 0 <= i <= |comments|
      invariant maxTid == MaxTidOf(comments[..i])
    {
      assert comments[..i + 1][..i] == comments[..i];
      if comments[i].tid > maxTid {
        maxTid := comments[i].tid;
      }
      i := i + 1;
    }
    assert comments[..i] == comments;
  }

  function Pow10(k: nat): (r: nat)
    ensures r >= 1
  {
    if k == 0 then 1 else 10 * Pow10(k - 1)
  }

  function DigitChar(d: int): char
    requires 0 <= d < 10
  {
    "0123456789"[d]
  }

  /** The decimal form of a natural number: as many digits as it has, with no
      leading zero. */
  function NatToString(n: nat): (r: string)
    ensures 1 <= |r|
    ensures n < Pow10(|r|)
    ensures |r| == 1 || Pow10(|r| - 1) <= n
    ensures forall i | 0 <= i < |r| :: '0' <= r[i] <= '9'
    ensures |r| > 1 ==> r[0] != '0'
  {
    if n < 10 then [DigitChar(n)]
    else NatToString(n / 10) + [DigitChar(n % 10)]
  }

  /** The value of a decimal digit. */
  function DigitValue(ch: char): Option<nat>
  {
    if '0' <= ch <= '9' then Some(ch as int - '0' as int) else None
  }

  /** The number a string of decimal digits spells. */
  function FromDecimal(s: string): Option<nat>
  {
    if s == [] then Some(0)
    else match (FromDecimal(s[..|s| - 1]), DigitValue(s[|s| - 1]))
      case (Some(v), Some(d)) => Some(10 * v + d)
      case _ => None
  }

  lemma DigitValueOfDigitChar(d: int)
    requires 0 <= d < 10
    ensures DigitValue(DigitChar(d)) == Some(d)
  {
  }

  /** The decimal form spells the number: reading it back gives `n`. */
  lemma {:induction false} FromDecimalNatToString(n: nat)
    ensures FromDecimal(NatToString(n)) == Some(n)
  {
    var s := NatToString(n);
    if n < 10 {
      assert s[..|s| - 1] == [];
      DigitValueOfDigitChar(n);
    } else {
      assert s[..|s| - 1] == NatToString(n / 10);
      FromDecimalNatToString(n / 10);
      DigitValueOfDigitChar(n % 10);
    }
  }

  /** `"" + n` for an integer. */
  function IntToString(n: int): (r: string)
    ensures |r| >= 1
    ensures r[0] == '-' <==> n < 0
    ensures forall i | 0 < i < |r| :: '0' <= r[i] <= '9'
    ensures n < 0 ==> r == "-" + NatToString(-n)
    ensures n >= 0 ==> r == NatToString(n)
  {
    if n < 0 then "-" + NatToString(-n) else NatToString(n)
  }

  /** `tidWidth`: the length of the decimal form of `maxTid`; 2 for "-1", and
      for a non-negative maximum its number of digits. */
  function TidWidth(maxTid: int): (r: nat)
    ensures r >= 1
    ensures maxTid == -1 ==> r == 2
    ensures 0 <= maxTid ==> maxTid < Pow10(r) && (r == 1 || Pow10(r - 1) <= maxTid)
  {
    |IntToString(maxTid)|
  }

  /** A larger number never has a shorter decimal form. */
  lemma {:induction false} NatToStringLengthMonotone(a: nat, b: nat)
    requires a <= b
    ensures |NatToString(a)| <= |NatToString(b)|
  {
    if a >= 10 {
      NatToStringLengthMonotone(a / 10, b / 10);
    }
  }

  // ---------------------------------------------------------------------------
  // pad and formatTid

  /** `new Array(k + 1).join(z)`: `k` copies of `z`. */
  function Repeat(z: string, k: nat): (r: string)
    ensures |r| == k * |z|
    ensures k > 0 ==> z <= r
    ensures forall i | |z| <= i < |r| :: r[i] == r[i - |z|]
    ensures |z| == 1 ==> forall i | 0 <= i < |r| :: r[i] == z[0]
  {
    if k == 0 then "" else
      var rest := Repeat(z, k - 1);
      assert forall i | |z| <= i < |z| + |rest| :: (z + rest)[i] == rest[i - |z|];
      z + rest
  }

  /** `z || '0'`. */
  function Filler(z: Option<string>): (r: string)
    ensures |r| >= 1
    ensures z.Some? && z.value != "" ==> r == z.value
    ensures z.None? || z.value == "" ==> r == "0"
  {
    if z.Some? && z.value != "" then z.value else "0"
  }

  /** `pad(n, width, z)`: left-pads `n` with copies of `z` ('0' when `z` is
      falsy) up to `width`; a string already that long is returned as it is.
      The padding length is exact when the filler is a single character. */
  function Pad(n: string, width: int, z: Option<string>): (r: string)
    ensures |n| >= width ==> r == n
    ensures |r| >= |n| && r[|r| - |n|..] == n
    ensures |n| < width && |Filler(z)| == 1 ==>
      |r| == width && forall i | 0 <= i < width - |n| :: r[i] == Filler(z)[0]
    ensures |n| < width ==> |r| == |n| + (width - |n|) * |Filler(z)|
    ensures |n| < width ==> Filler(z) <= r
    ensures |n| < width ==> forall i | |Filler(z)| <= i < |r| - |n| :: r[i] == r[i - |Filler(z)|]
  {
    if |n| >= width then n else Repeat(Filler(z), width - |n|) + n
  }

  /** `formatTid(tid)`: "#" and the tid's decimal form padded to `tidWidth`. */
  function FormatTid(tid: int, tidWidth: int): (r: string)
    ensures |r| >= 1 + |IntToString(tid)| && r[0] == '#'
    ensures r[|r| - |IntToString(tid)|..] == IntToString(tid)
    ensures |IntToString(tid)| >= tidWidth ==> r == "#" + IntToString(tid)
    ensures |IntToString(tid)| < tidWidth ==>
      |r| == 1 + tidWidth && forall i | 1 <= i <= tidWidth - |IntToString(tid)| :: r[i] == '0'
  {
    "#" + Pad(IntToString(tid), tidWidth, None)
  }

  /** Every non-negative tid of the list is formatted to the same length,
      1 + tidWidth. */
  lemma FormatTidLength(comments: seq<Comment>, i: nat)
    requires i < |comments| && comments[i].tid >= 0
    ensures var width := TidWidth(MaxTidOf(comments));
      |FormatTid(comments[i].tid, width)| == 1 + width
  {
    var tid, maxTid := comments[i].tid, MaxTidOf(comments);
    NatToStringLengthMonotone(tid, maxTid);
  }

  // ---------------------------------------------------------------------------
  // repness bucketing

  /** The tids of the entries whose "repful-for" is `tag`, in entry order. */
  function TidsFor(entries: seq<RepnessEntry>, tag: string): (r: seq<int>)
    ensures |r| <= |entries|
    ensures forall t :: t in r <==>
      exists i | 0 <= i < |entries| :: entries[i].tid == t && entries[i].repfulFor == tag
  {
    if entries == [] then []
    else
      var init, last := entries[..|entries| - 1], entries[|entries| - 1];
      assert forall i | 0 <= i < |init| :: init[i] == entries[i];
      TidsFor(init, tag) + (if last.repfulFor == tag then [last.tid] else [])
  }

  /** The filter commutes with concatenation, so the tids stay in entry
      order. */
  lemma {:induction false} TidsForAppend(a: seq<RepnessEntry>, b: seq<RepnessEntry>, tag: string)
    ensures TidsFor(a + b, tag) == TidsFor(a, tag) + TidsFor(b, tag)
  {
    if b == [] {
      assert a + b == a;
    } else {
      var init := b[..|b| - 1];
      assert (a + b)[..|a + b| - 1] == a + init;
      assert (a + b)[|a + b| - 1] == b[|b| - 1];
      TidsForAppend(a, init, tag);
    }
  }

  lemma TidsForEmpty(entries: seq<RepnessEntry>, tag: string)
    ensures TidsFor(entries, tag) == [] <==>
      forall i | 0 <= i < |entries| :: entries[i].repfulFor != tag
  {
    if exists i | 0 <= i < |entries| :: entries[i].repfulFor == tag {
      var i :| 0 <= i < |entries| && entries[i].repfulFor == tag;
      assert entries[i].tid in TidsFor(entries, tag);
    }
  }

  /** Every entry lands in at most one of the two lists, and in exactly one
      when it is tagged "agree" or "disagree". */
  lemma {:induction false} TidsForPartition(entries: seq<RepnessEntry>)
    ensures |TidsFor(entries, "agree")| + |TidsFor(entries, "disagree")| <= |entries|
    ensures |TidsFor(entries, "agree")| + |TidsFor(entries, "disagree")| == |entries| <==>
      forall i | 0 <= i < |entries| :: entries[i].repfulFor == "agree" || entries[i].repfulFor == "disagree"
  {
    if entries != [] {
      var init := entries[..|entries| - 1];
      TidsForPartition(init);
      assert forall i | 0 <= i < |init| :: init[i] == entries[i];
      assert "agree" != "disagree";
    }
  }

  /** The buckets of the groups in `gids`: a group appears only when it has an
      entry with the tag. */
  function Buckets(groups: map<string, seq<RepnessEntry>>, gids: set<string>, tag: string)
    : (r: map<string, seq<int>>)
    ensures forall g :: g in r <==>
      g in gids && g in groups && exists i | 0 <= i < |groups[g]| :: groups[g][i].repfulFor == tag
    ensures forall g | g in r :: r[g] == TidsFor(groups[g], tag)
  {
    forall g | g in gids && g in groups {
      TidsForEmpty(groups[g], tag);
    }
    map g | g in gids && g in groups && TidsFor(groups[g], tag) != [] :: TidsFor(groups[g], tag)
  }

  lemma BucketsAdd(groups: map<string, seq<RepnessEntry>>, done: set<string>, gid: string, tag: string)
    requires gid in groups && gid !in done
    ensures gid !in Buckets(groups, done, tag)
    ensures Buckets(groups, done + {gid}, tag) ==
      if TidsFor(groups[gid], tag) == [] then Buckets(groups, done, tag)
      else Buckets(groups, done, tag)[gid := TidsFor(groups[gid], tag)]
  {
    TidsForEmpty(groups[gid], tag);
  }

  /** One more entry adds its tid to the list of its tag. */
  lemma TidsForStep(entries: seq<RepnessEntry>, j: nat, tag: string)
    requires j < |entries|
    ensures entries[j].repfulFor == tag ==>
      TidsFor(entries[..j + 1], tag) == TidsFor(entries[..j], tag) + [entries[j].tid]
    ensures entries[j].repfulFor != tag ==> TidsFor(entries[..j + 1], tag) == TidsFor(entries[..j], tag)
  {
    assert entries[..j + 1][..j] == entries[..j];
  }

  /** `base` with the bucket `tids` under `gid`, a key only when `tids` is not
      empty. */
  function WithBucket(base: map<string, seq<int>>, gid: string, tids: seq<int>): (r: map<string, seq<int>>)
    ensures tids == [] ==> r == base
    ensures tids != [] ==> r == base[gid := tids]
  {
    if tids == [] then base else base[gid := tids]
  }

  /** Pushing `tid` onto the bucket of `gid` (created on first use). */
  lemma PushBucket(base: map<string, seq<int>>, gid: string, tids: seq<int>, tid: int)
    requires gid !in base
    ensures var m := WithBucket(base, gid, tids);
      m[gid := (if gid in m then m[gid] else []) + [tid]] == WithBucket(base, gid, tids + [tid])
  {
  }

  /** The inner `forEach` over one group's entries: each "agree" entry's tid
      is pushed onto the group's agree list (created on first use), each
      "disagree" one onto its disagree list. */
  method AddGroup(gid: string, entries: seq<RepnessEntry>,
                  agree: map<string, seq<int>>, disagree: map<string, seq<int>>)
    returns (agree': map<string, seq<int>>, disagree': map<string, seq<int>>)
    requires gid !in agree && gid !in disagree
    ensures agree' == if TidsFor(entries, "agree") == [] then agree
                      else agree[gid := TidsFor(entries, "agree")]
    ensures disagree' == if TidsFor(entries, "disagree") == [] then disagree
                         else disagree[gid := TidsFor(entries, "disagree")]
  {
    agree', disagree' := agree, disagree;
    var j := 0;
    while j < |entries|
      invariant 0 <= j <= |entries|
      invariant agree' == WithBucket(agree, gid, TidsFor(entries[..j], "agree"))
      invariant disagree' == WithBucket(disagree, gid, TidsFor(entries[..j], "disagree"))
    {
      var entry := entries[j];
      TidsForStep(entries, j, "agree");
      TidsForStep(entries, j, "disagree");
      if entry.repfulFor == "agree" {
        assert entry.repfulFor != "disagree";
        PushBucket(agree, gid, TidsFor(entries[..j], "agree"), entry.tid);
        var bucket := if gid in agree' then agree'[gid] else [];
        agree' := agree'[gid := bucket + [entry.tid]];
      } else if entry.repfulFor == "disagree" {
        PushBucket(disagree, gid, TidsFor(entries[..j], "disagree"), entry.tid);
        var bucket := if gid in disagree' then disagree'[gid] else [];
        disagree' := disagree'[gid := bucket + [entry.tid]];
      }
      j := j + 1;
    }
    assert entries[..j] == entries;
  }

  /** The bucketing in `Root.render`: nothing when the result carries no
      repness; otherwise, for every group, the agree and disagree buckets. */
  method BucketRepness(repness: Option<map<string, seq<RepnessEntry>>>)
    returns (agree: map<string, seq<int>>, disagree: map<string, seq<int>>)
    ensures repness.None? ==> agree == map[] && disagree == map[]
    ensures repness.Some? ==>
      agree == Buckets(repness.value, repness.value.Keys, "agree")
      && disagree == Buckets(repness.value, repness.value.Keys, "disagree")
  {
    agree, disagree := map[], map[];
    if repness.None? {
      return;
    }
    var groups := repness.value;
    var todo, done := groups.Keys, {};
    while todo != {}
      invariant done + todo == groups.Keys && done !! todo
      invariant agree == Buckets(groups, done, "agree")
      invariant disagree == Buckets(groups, done, "disagree")
      decreases todo
    {
      var gid :| gid in todo;
      BucketsAdd(groups, done, gid, "agree");
      BucketsAdd(groups, done, gid, "disagree");
      agree, disagree := AddGroup(gid, groups[gid], agree, disagree);
      done, todo := done + {gid}, todo - {gid};
    }
    assert done == groups.Keys;
  }
}
