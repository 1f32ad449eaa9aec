/** The reaction chips of frontend/src/components/MessageReactions.jsx:
    reactions grouped by emoji in a plain object (one chip per key, in
    insertion order, showing the group's size), and the one chip the signed-in
    user may click to remove their reaction. */
module MessageReactions {
  import opened Base
  import opened Models
  import OM = OrderedMap

  /** The accumulator object of the `reduce`: emoji to the reactions with it. */
  type Groups = OM.Assoc<string, seq<Reaction>>

  /** One rendered button: the emoji, the number shown, and whether it is
      drawn as the user's own reaction. */
  datatype Chip = Chip(emoji: string, count: nat, mine: bool)

  /** The emojis of the reactions, in order. */
  function Emojis(rs: seq<Reaction>): (r: seq<string>)
    ensures |r| == |rs|
    ensures forall i :: 0 <= i < |rs| ==> r[i] == rs[i].emoji
  {
    seq(|rs|, i requires 0 <= i < |rs| => rs[i].emoji)
  }

  /** The reactions with emoji `e`, in order: what the group under `e` should
      hold. */
  function WithEmoji(rs: seq<Reaction>, e: string): (r: seq<Reaction>)
    ensures |r| <= |rs|
    ensures forall x :: x in r ==> x in rs && x.emoji == e
    decreases |rs|
  {
    if |rs| == 0 then []
    else WithEmoji(rs[..|rs| - 1], e) + (if rs[|rs| - 1].emoji == e then [rs[|rs| - 1]] else [])
  }

  /** One step of the `reduce`: create the array under the emoji when the key
      is missing, then push the reaction onto it. */
  function AddToGroup(acc: Groups, r: Reaction): Groups {
    OM.Put(acc, r.emoji, OM.Get(acc, r.emoji).GetOr([]) + [r])
  }

  /** `reactions.reduce(..., {})`, folding from the left. */
  function GroupByEmoji(rs: seq<Reaction>): Groups
    decreases |rs|
  {
    if |rs| == 0 then [] else AddToGroup(GroupByEmoji(rs[..|rs| - 1]), rs[|rs| - 1])
  }

  /** `reactions.find(r => r.userId._id === authUserId || r.userId === authUserId)`. */
  function UserReaction(rs: seq<Reaction>, auth: UserId): (r: Option<Reaction>)
    ensures r.Some? ==> r.value in rs && RefersTo(r.value.userId, auth)
    ensures r.None? <==> forall x :: x in rs ==> !RefersTo(x.userId, auth)
    ensures r.Some? ==> exists i :: 0 <= i < |rs| && rs[i] == r.value && forall j :: 0 <= j < i ==> !RefersTo(rs[j].userId, auth)
  {
    if |rs| == 0 then None
    else if RefersTo(rs[0].userId, auth) then Some(rs[0])
    else UserReaction(rs[1..], auth)
  }

  /** The chip for one entry of the grouped object. */
  function ChipOf(entry: (string, seq<Reaction>), mine: Option<Reaction>): Chip {
    Chip(entry.0, |entry.1|, mine.Some? && mine.value.emoji == entry.0)
  }

  /** `Object.entries(groupedReactions).map(...)`. */
  function ChipsOf(g: Groups, mine: Option<Reaction>): (r: seq<Chip>)
    ensures |r| == |g|
  {
    seq(|g|, i requires 0 <= i < |g| => ChipOf(g[i], mine))
  }

  /** One chip per entry of the grouped object. */
  function Chips(rs: seq<Reaction>, auth: UserId): seq<Chip> {
    ChipsOf(GroupByEmoji(rs), UserReaction(rs, auth))
  }

  /** The sum of the group sizes. */
  function Total(g: Groups): nat
    decreases |g|
  {
    if |g| == 0 then 0 else Total(g[..|g| - 1]) + |g[|g| - 1].1|
  }

  /** The sum of the numbers shown on the chips. */
  function Shown(chips: seq<Chip>): nat
    decreases |chips|
  {
    if |chips| == 0 then 0 else Shown(chips[..|chips| - 1]) + chips[|chips| - 1].count
  }

  /** The component: nothing for missing or empty reactions, otherwise the
      chips. */
  function Render(reactions: Option<seq<Reaction>>, auth: UserId): Option<seq<Chip>> {
    if reactions.None? || |reactions.value| == 0 then None
    else Some(Chips(reactions.value, auth))
  }

  /** The click handler of the chip for `emoji`: whether `onRemoveReaction`
      is called. */
  function Click(rs: seq<Reaction>, auth: UserId, emoji: string): bool {
    var mine := UserReaction(rs, auth);
    mine.Some? && mine.value.emoji == emoji
  }

  // ---------------------------------------------------------------------
  // Properties
  // ---------------------------------------------------------------------

  /** Without reactions of emoji `e` its group is empty. */
  lemma {:induction false} WithEmojiAbsent(rs: seq<Reaction>, e: string)
    requires e !in Emojis(rs)
    ensures WithEmoji(rs, e) == []
    decreases |rs|
  {
    if |rs| > 0 {
      assert Emojis(rs[..|rs| - 1]) == Emojis(rs)[..|rs| - 1];
      WithEmojiAbsent(rs[..|rs| - 1], e);
      assert rs[|rs| - 1].emoji == Emojis(rs)[|rs| - 1];
    }
  }

  /** The first occurrence of an emoji already seen does not move when a
      reaction is appended. */
  lemma FindExtend(s: seq<string>, x: string, k: string)
    requires k in s
    ensures Find(s + [x], k) == Find(s, k)
  {
    assert (s + [x])[Find(s, k)] == k;
  }

  /** The grouped object's keys are distinct and are the emojis that occur. */
  ghost predicate KeysMatch(g: Groups, rs: seq<Reaction>) {
    OM.Wf(g) && forall e :: e in OM.Keys(g) <==> e in Emojis(rs)
  }

  /** The group under each emoji that occurs is the reference group. */
  ghost predicate GroupsMatch(g: Groups, rs: seq<Reaction>) {
    forall e :: e in Emojis(rs) ==> OM.Get(g, e) == Some(WithEmoji(rs, e))
  }

  /** The keys are ordered by the first occurrence of their emoji. */
  ghost predicate FirstSeenOrder(g: Groups, rs: seq<Reaction>) {
    forall i, j :: 0 <= i < j < |OM.Keys(g)| ==> Find(Emojis(rs), OM.Keys(g)[i]) < Find(Emojis(rs), OM.Keys(g)[j])
  }

  lemma EmojisSnoc(pre: seq<Reaction>, r: Reaction)
    ensures Emojis(pre + [r]) == Emojis(pre) + [r.emoji]
  {
  }

  lemma WithEmojiSnoc(pre: seq<Reaction>, r: Reaction, e: string)
    ensures WithEmoji(pre + [r], e) == WithEmoji(pre, e) + (if r.emoji == e then [r] else [])
  {
    assert (pre + [r])[..|pre|] == pre;
  }

  /** One `reduce` step keeps the keys equal to the emojis seen. */
  lemma AddToGroupKeys(g: Groups, pre: seq<Reaction>, r: Reaction)
    requires KeysMatch(g, pre)
    ensures KeysMatch(AddToGroup(g, r), pre + [r])
  {
    EmojisSnoc(pre, r);
    OM.PutSpec(g, r.emoji, OM.Get(g, r.emoji).GetOr([]) + [r]);
    var ks := OM.Keys(AddToGroup(g, r));
    forall e ensures e in ks <==> e in Emojis(pre + [r]) {
      assert e in ks <==> e in OM.Keys(g) || e == r.emoji;
    }
  }

  /** The group a `reduce` step pushes onto is the reference group extended
      by the reaction. */
  lemma AddToGroupSame(g: Groups, pre: seq<Reaction>, r: Reaction)
    requires KeysMatch(g, pre) && GroupsMatch(g, pre)
    ensures OM.Get(AddToGroup(g, r), r.emoji) == Some(WithEmoji(pre + [r], r.emoji))
  {
    var prev := OM.Get(g, r.emoji).GetOr([]);
    if r.emoji !in Emojis(pre) {
      WithEmojiAbsent(pre, r.emoji);
      assert OM.Get(g, r.emoji).None?;
    }
    assert prev == WithEmoji(pre, r.emoji);
    WithEmojiSnoc(pre, r, r.emoji);
    OM.PutSpec(g, r.emoji, prev + [r]);
  }

  /** A `reduce` step leaves the other groups alone. */
  lemma AddToGroupOther(g: Groups, pre: seq<Reaction>, r: Reaction, e: string)
    requires GroupsMatch(g, pre) && OM.Wf(g)
    requires e in Emojis(pre) && e != r.emoji
    ensures OM.Get(AddToGroup(g, r), e) == Some(WithEmoji(pre + [r], e))
  {
    WithEmojiSnoc(pre, r, e);
    assert WithEmoji(pre + [r], e) == WithEmoji(pre, e) + [] == WithEmoji(pre, e);
    assert OM.Get(g, e) == Some(WithEmoji(pre, e));
    OM.PutSpec(g, r.emoji, OM.Get(g, r.emoji).GetOr([]) + [r]);
  }

  /** One `reduce` step keeps every group equal to the reference group. */
  lemma AddToGroupGroups(g: Groups, pre: seq<Reaction>, r: Reaction)
    requires KeysMatch(g, pre) && GroupsMatch(g, pre)
    ensures GroupsMatch(AddToGroup(g, r), pre + [r])
  {
    EmojisSnoc(pre, r);
    forall e | e in Emojis(pre + [r]) ensures OM.Get(AddToGroup(g, r), e) == Some(WithEmoji(pre + [r], e)) {
      if e == r.emoji {
        AddToGroupSame(g, pre, r);
      } else {
        AddToGroupOther(g, pre, r, e);
      }
    }
  }

  /** Keys ordered by first occurrence in `es` stay so ordered when `x` is
      appended to `es` and, if new, to the keys. */
  lemma FirstSeenExtend(ks: seq<string>, es: seq<string>, x: string, ks': seq<string>)
    requires forall k :: k in ks <==> k in es
    requires forall i, j :: 0 <= i < j < |ks| ==> Find(es, ks[i]) < Find(es, ks[j])
    requires ks' == if x in ks then ks else ks + [x]
    ensures forall i, j :: 0 <= i < j < |ks'| ==> Find(es + [x], ks'[i]) < Find(es + [x], ks'[j])
  {
    forall k | k in ks ensures Find(es + [x], k) == Find(es, k) {
      FindExtend(es, x, k);
    }
    if x !in ks {
      assert Find(es + [x], x) == |es|;
      forall i, j | 0 <= i < j < |ks'| ensures Find(es + [x], ks'[i]) < Find(es + [x], ks'[j]) {
        assert ks'[i] in ks;
        if j < |ks| {
          assert ks'[j] in ks;
        }
      }
    }
  }

  /** One `reduce` step keeps the keys in order of first occurrence: a new
      key goes last, and its emoji first occurs last. */
  lemma AddToGroupOrder(g: Groups, pre: seq<Reaction>, r: Reaction)
    requires KeysMatch(g, pre) && FirstSeenOrder(g, pre)
    ensures FirstSeenOrder(AddToGroup(g, r), pre + [r])
  {
    EmojisSnoc(pre, r);
    AddToGroupKeySeq(g, r);
    FirstSeenExtend(OM.Keys(g), Emojis(pre), r.emoji, OM.Keys(AddToGroup(g, r)));
  }

  /** A `reduce` step keeps the key order and appends a new emoji. */
  lemma AddToGroupKeySeq(g: Groups, r: Reaction)
    requires OM.Wf(g)
    ensures OM.Keys(AddToGroup(g, r)) == if r.emoji in OM.Keys(g) then OM.Keys(g) else OM.Keys(g) + [r.emoji]
  {
    OM.PutSpec(g, r.emoji, OM.Get(g, r.emoji).GetOr([]) + [r]);
  }

  /** The grouped object is the reference grouping: its keys are distinct,
      they are exactly the emojis that occur, ordered by first occurrence, and
      the group under each key holds exactly the reactions with that emoji,
      in their original order. */
  lemma {:induction false} GroupByEmojiSpec(rs: seq<Reaction>)
    ensures KeysMatch(GroupByEmoji(rs), rs)
    ensures GroupsMatch(GroupByEmoji(rs), rs)
    ensures FirstSeenOrder(GroupByEmoji(rs), rs)
    decreases |rs|
  {
    if |rs| > 0 {
      var pre := rs[..|rs| - 1];
      var r := rs[|rs| - 1];
      assert rs == pre + [r];
      GroupByEmojiSpec(pre);
      AddToGroupKeys(GroupByEmoji(pre), pre, r);
      AddToGroupGroups(GroupByEmoji(pre), pre, r);
      AddToGroupOrder(GroupByEmoji(pre), pre, r);
    }
  }

  /** Replacing one entry changes the total by the difference of sizes. */
  lemma {:induction false} TotalUpdate(a: Groups, b: Groups, j: nat)
    requires |a| == |b| && j < |a|
    requires forall i :: 0 <= i < |a| && i != j ==> a[i] == b[i]
    ensures Total(b) + |a[j].1| == Total(a) + |b[j].1|
    decreases |a|
  {
    var n := |a| - 1;
    if j < n {
      TotalUpdate(a[..n], b[..n], j);
      assert a[n] == b[n];
    } else {
      assert a[..n] == b[..n];
    }
  }

  /** The groups partition the reactions: their sizes add up to the number of
      reactions. */
  lemma {:induction false} GroupSizesSum(rs: seq<Reaction>)
    ensures Total(GroupByEmoji(rs)) == |rs|
    decreases |rs|
  {
    if |rs| > 0 {
      var pre := rs[..|rs| - 1];
      var r := rs[|rs| - 1];
      GroupSizesSum(pre);
      GroupByEmojiSpec(pre);
      var g := GroupByEmoji(pre);
      var prev := OM.Get(g, r.emoji).GetOr([]);
      var g' := GroupByEmoji(rs);
      assert g' == OM.Put(g, r.emoji, prev + [r]);
      if r.emoji in OM.Keys(g) {
        var j := Find(OM.Keys(g), r.emoji);
        assert prev == g[j].1;
        assert g'[j] == (r.emoji, prev + [r]);
        forall i | 0 <= i < |g| && i != j ensures g[i] == g'[i] {
          assert OM.Keys(g)[i] == g[i].0;
        }
        TotalUpdate(g, g', j);
      } else {
        assert g'[..|g|] == g;
      }
    }
  }

  /** The chips show the group sizes. */
  lemma {:induction false} ShownTotal(g: Groups, mine: Option<Reaction>)
    ensures Shown(ChipsOf(g, mine)) == Total(g)
    decreases |g|
  {
    if |g| > 0 {
      var n := |g| - 1;
      assert ChipsOf(g, mine)[..n] == ChipsOf(g[..n], mine);
      ShownTotal(g[..n], mine);
    }
  }

  /** Every reaction sits in the group of its own emoji. */
  lemma {:induction false} WithEmojiHas(rs: seq<Reaction>, x: Reaction)
    requires x in rs
    ensures x in WithEmoji(rs, x.emoji)
    decreases |rs|
  {
    if rs[|rs| - 1] != x {
      assert x in rs[..|rs| - 1] by {
        var i :| 0 <= i < |rs| && rs[i] == x;
        assert rs[..|rs| - 1][i] == x;
      }
      WithEmojiHas(rs[..|rs| - 1], x);
    }
  }

  /** The chips are the keys of the grouped object, in order. */
  lemma ChipKeys(rs: seq<Reaction>, auth: UserId)
    ensures var chips := Chips(rs, auth);
      && |chips| == |OM.Keys(GroupByEmoji(rs))|
      && forall i :: 0 <= i < |chips| ==> chips[i].emoji == OM.Keys(GroupByEmoji(rs))[i]
  {
  }

  /** The chips name each emoji that occurs, once, in order of first
      occurrence. */
  lemma ChipEmojis(rs: seq<Reaction>, auth: UserId)
    ensures var chips := Chips(rs, auth);
      && (forall i, j :: 0 <= i < j < |chips| ==> chips[i].emoji != chips[j].emoji)
      && (forall e :: e in Emojis(rs) <==> exists i :: 0 <= i < |chips| && chips[i].emoji == e)
      && (forall i, j :: 0 <= i < j < |chips| ==> Find(Emojis(rs), chips[i].emoji) < Find(Emojis(rs), chips[j].emoji))
  {
    var chips := Chips(rs, auth);
    GroupByEmojiSpec(rs);
    ChipKeys(rs, auth);
    var ks := OM.Keys(GroupByEmoji(rs));
    forall e | e in Emojis(rs) ensures exists i :: 0 <= i < |chips| && chips[i].emoji == e {
      var i :| 0 <= i < |ks| && ks[i] == e;
      assert chips[i].emoji == e;
    }
  }

  /** The chip showing emoji `e`, for an emoji that occurs. */
  lemma ChipFor(rs: seq<Reaction>, auth: UserId, e: string) returns (i: int)
    requires e in Emojis(rs)
    ensures 0 <= i < |Chips(rs, auth)| && Chips(rs, auth)[i].emoji == e
  {
    ChipEmojis(rs, auth);
    i :| 0 <= i < |Chips(rs, auth)| && Chips(rs, auth)[i].emoji == e;
  }

  /** Each chip shows the number of reactions with its emoji, never zero. */
  lemma ChipCounts(rs: seq<Reaction>, auth: UserId)
    ensures var chips := Chips(rs, auth);
      forall i :: 0 <= i < |chips| ==> chips[i].count == |WithEmoji(rs, chips[i].emoji)| > 0
  {
    var g := GroupByEmoji(rs);
    var chips := Chips(rs, auth);
    GroupByEmojiSpec(rs);
    var ks := OM.Keys(g);
    forall i | 0 <= i < |chips| ensures chips[i].count == |WithEmoji(rs, chips[i].emoji)| > 0 {
      var e := ks[i];
      assert chips[i].emoji == e;
      assert g[i] in g;
      OM.GetWf(g, e, g[i].1);
      var k := Find(Emojis(rs), e);
      WithEmojiHas(rs, rs[k]);
    }
  }

  /** At most one chip is highlighted, and one is exactly when the user has
      reacted. */
  lemma ChipHighlight(rs: seq<Reaction>, auth: UserId)
    ensures var chips := Chips(rs, auth);
      && (forall i, j :: 0 <= i < j < |chips| ==> !(chips[i].mine && chips[j].mine))
      && ((exists i :: 0 <= i < |chips| && chips[i].mine) <==> exists x :: x in rs && RefersTo(x.userId, auth))
  {
    var chips := Chips(rs, auth);
    var mine := UserReaction(rs, auth);
    assert forall i :: 0 <= i < |chips| ==> (chips[i].mine <==> mine.Some? && mine.value.emoji == chips[i].emoji);
    GroupByEmojiSpec(rs);
    ChipKeys(rs, auth);
    if mine.Some? {
      var k :| 0 <= k < |rs| && rs[k] == mine.value;
      assert Emojis(rs)[k] == mine.value.emoji;
      var i := ChipFor(rs, auth, mine.value.emoji);
      assert chips[i].mine;
    }
  }

  /** Nothing is rendered exactly for missing or empty reactions. Otherwise
      there is one chip per emoji that occurs, each emoji once, in order of
      first occurrence; each chip counts the reactions with its emoji; and the
      user's own chip is highlighted: exactly one chip when the user has
      reacted, and none otherwise. */
  lemma RenderSpec(reactions: Option<seq<Reaction>>, auth: UserId)
    ensures Render(reactions, auth).None? <==> reactions.None? || |reactions.value| == 0
    ensures Render(reactions, auth).Some? ==>
      var rs := reactions.value;
      var chips := Render(reactions, auth).value;
      && (forall i, j :: 0 <= i < j < |chips| ==> chips[i].emoji != chips[j].emoji)
      && (forall e :: e in Emojis(rs) <==> exists i :: 0 <= i < |chips| && chips[i].emoji == e)
      && (forall i, j :: 0 <= i < j < |chips| ==> Find(Emojis(rs), chips[i].emoji) < Find(Emojis(rs), chips[j].emoji))
      && (forall i :: 0 <= i < |chips| ==> chips[i].count == |WithEmoji(rs, chips[i].emoji)| > 0)
      && Shown(chips) == |rs|
      && (forall i, j :: 0 <= i < j < |chips| ==> !(chips[i].mine && chips[j].mine))
      && ((exists i :: 0 <= i < |chips| && chips[i].mine) <==> exists x :: x in rs && RefersTo(x.userId, auth))
  {
    if reactions.Some? && |reactions.value| > 0 {
      GroupSizesSum(reactions.value);
      ShownTotal(GroupByEmoji(reactions.value), UserReaction(reactions.value, auth));
      ChipEmojis(reactions.value, auth);
      ChipCounts(reactions.value, auth);
      ChipHighlight(reactions.value, auth);
    }
  }

  /** Clicking a chip removes the user's reaction exactly when that chip is
      the highlighted one; clicking any other chip does nothing. */
  lemma ClickSpec(reactions: seq<Reaction>, auth: UserId)
    requires |reactions| > 0
    ensures var chips := Render(Some(reactions), auth).value;
      forall i :: 0 <= i < |chips| ==> (Click(reactions, auth, chips[i].emoji) <==> chips[i].mine)
  {
  }
}
