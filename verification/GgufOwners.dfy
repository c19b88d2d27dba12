/** Which tensor each data byte of a GGUF file belongs to, and what the profile counts of each kind. */
module GgufOwners {
  import opened Results
  import opened Wire
  import opened Text
  import opened Gguf
  import opened Sorting
  import opened GgufProfile

  // The owner of a position: the greatest offset not above it, the later in the table on a tie.
  predicate Owns(tensors: seq<TensorInfo>, i: nat, p: nat)
    requires i < |tensors|
  {
    tensors[i].offset <= p
    && forall j :: 0 <= j < |tensors| && tensors[j].offset <= p ==>
         tensors[j].offset < tensors[i].offset || (tensors[j].offset == tensors[i].offset && j <= i)
  }

  predicate OwnedBy(tensors: seq<TensorInfo>, p: nat, expert: bool) {
    exists i :: 0 <= i < |tensors| && Owns(tensors, i, p) && IsExpertTensor(tensors[i].name) == expert
  }

  // How many of the first `n` positions belong to tensors of a kind.
  function Owned(tensors: seq<TensorInfo>, n: nat, expert: bool): nat {
    if n == 0 then 0 else Owned(tensors, n - 1, expert) + if OwnedBy(tensors, n - 1, expert) then 1 else 0
  }

  /* ----- the owner, found from the back of the table ----- */

  function Better(t: TensorInfo, r: Option<TensorInfo>, p: nat): Option<TensorInfo> {
    if t.offset <= p && (r.None? || r.value.offset < t.offset) then Some(t) else r
  }

  function Best(s: seq<TensorInfo>, p: nat): Option<TensorInfo> {
    if s == [] then None else Better(s[0], Best(s[1..], p), p)
  }

  lemma {:induction false} BestOwns(s: seq<TensorInfo>, p: nat) returns (i: nat)
    ensures if Best(s, p).None? then forall j :: 0 <= j < |s| ==> s[j].offset > p
            else i < |s| && s[i] == Best(s, p).value && Owns(s, i, p)
    decreases |s|
  {
    i := 0;
    if s != [] {
      var k := BestOwns(s[1..], p);
      if Best(s, p) != Some(s[0]) || (Best(s[1..], p) == Best(s, p)) {
        i := k + 1;
      }
      forall j | 0 < j < |s|
        ensures s[j] == s[1..][j - 1]
      {}
    }
  }

  lemma OwnerIsOne(s: seq<TensorInfo>, i: nat, j: nat, p: nat)
    requires i < |s| && j < |s| && Owns(s, i, p) && Owns(s, j, p)
    ensures i == j
  {}

  lemma OwnedIsBest(s: seq<TensorInfo>, p: nat, expert: bool)
    ensures OwnedBy(s, p, expert) <==> Best(s, p).Some? && IsExpertTensor(Best(s, p).value.name) == expert
  {
    hide IsExpertTensor;
    hide Best;
    var i := BestOwns(s, p);
    if OwnedBy(s, p, expert) {
      var j :| 0 <= j < |s| && Owns(s, j, p) && IsExpertTensor(s[j].name) == expert;
      OwnerIsOne(s, i, j, p);
    }
  }

  lemma {:induction false} InsertBest(t: TensorInfo, s: seq<TensorInfo>, p: nat)
    ensures Best(InsertBy(t, s, OffsetOf), p) == Better(t, Best(s, p), p)
    decreases |s|
  {
    if s == [] || t.offset <= s[0].offset {
      assert ([t] + s)[1..] == s;
    } else {
      InsertBest(t, s[1..], p);
      assert ([s[0]] + InsertBy(t, s[1..], OffsetOf))[1..] == InsertBy(t, s[1..], OffsetOf);
    }
  }

  // A stable sort changes no owner.
  lemma {:induction false} SortBest(s: seq<TensorInfo>, p: nat)
    ensures Best(SortInfos(s), p) == Best(s, p)
    decreases |s|
  {
    hide Better;
    hide InsertBy;
    if s != [] {
      SortBest(s[1..], p);
      InsertBest(s[0], SortInfos(s[1..]), p);
    }
  }

  /* ----- sorted tables ----- */

  lemma {:induction false} BestOfSorted(s: seq<TensorInfo>, i: nat, p: nat)
    requires ByOffset(s) && i < |s| && s[i].offset <= p && (i + 1 < |s| ==> p < s[i + 1].offset)
    ensures Best(s, p) == Some(s[i])
    decreases |s|
  {
    if i > 0 {
      BestOfSorted(s[1..], i - 1, p);
    } else {
      BestOfLater(s[1..], p);
    }
  }

  lemma {:induction false} BestOfLater(s: seq<TensorInfo>, p: nat)
    requires forall j :: 0 <= j < |s| ==> s[j].offset > p
    ensures Best(s, p) == None
    decreases |s|
  {
    if s != [] {
      BestOfLater(s[1..], p);
    }
  }

  // The positions of one entry: from its offset up to the next.
  lemma {:induction false} OwnedUpTo(s: seq<TensorInfo>, i: nat, dataLen: nat, n: nat, expert: bool)
    requires ByOffset(s) && i < |s| && s[i].offset <= n <= NextOffset(s, i, dataLen)
    ensures Owned(s, n, expert)
         == Owned(s, s[i].offset, expert) + if IsExpertTensor(s[i].name) == expert then n - s[i].offset else 0
    decreases n
  {
    hide IsExpertTensor;
    hide OwnedBy;
    hide Best;
    if n > s[i].offset {
      OwnedUpTo(s, i, dataLen, n - 1, expert);
      BestOfSorted(s, i, n - 1);
      OwnedIsBest(s, n - 1, expert);
    }
  }

  lemma {:induction false} NoneOwned(s: seq<TensorInfo>, n: nat, expert: bool)
    requires forall j :: 0 <= j < |s| ==> n <= s[j].offset
    ensures Owned(s, n, expert) == 0
    decreases n
  {
    hide IsExpertTensor;
    if n > 0 {
      NoneOwned(s, n - 1, expert);
    }
  }

  // The sums so far are the counts so far.
  lemma {:induction false} AddUpCounts(s: seq<TensorInfo>, i: nat, dataLen: nat, sums: Sums)
    requires ByOffset(s) && i <= |s| && dataLen < U64_LIMIT
    requires forall k :: 0 <= k < |s| ==> s[k].offset <= dataLen
    requires var at := if i < |s| then s[i].offset else dataLen;
             sums.expert == Owned(s, at, true) && sums.base == Owned(s, at, false) && sums.base + sums.expert <= at
    ensures AddUp(s, i, dataLen, sums) == Some(Sums(Owned(s, dataLen, false), Owned(s, dataLen, true)))
    decreases |s| - i
  {
    hide IsExpertTensor;
    hide Owned;
    if i < |s| {
      var next := NextOffset(s, i, dataLen);
      OwnedUpTo(s, i, dataLen, next, true);
      OwnedUpTo(s, i, dataLen, next, false);
      var size := next - s[i].offset;
      var more := if IsExpertTensor(s[i].name) then sums.(expert := SatAdd(sums.expert, size))
                  else sums.(base := SatAdd(sums.base, size));
      AddUpCounts(s, i + 1, dataLen, more);
    }
  }

  lemma {:induction false} SortOwned(tensors: seq<TensorInfo>, n: nat, expert: bool)
    ensures Owned(SortInfos(tensors), n, expert) == Owned(tensors, n, expert)
    decreases n
  {
    hide IsExpertTensor;
    hide OwnedBy;
    hide SortInfos;
    hide Best;
    if n > 0 {
      SortOwned(tensors, n - 1, expert);
      SortBest(tensors, n - 1);
      OwnedIsBest(tensors, n - 1, expert);
      OwnedIsBest(SortInfos(tensors), n - 1, expert);
    }
  }

  // A profile counts the data bytes that expert tensors own, and those that others own.
  lemma ProfileCountsOwners(fileLen: nat, p: Parsed)
    requires p.tensors != [] && fileLen < U64_LIMIT && Account(fileLen, p).Some?
    ensures var r := Account(fileLen, p).value;
            var dataLen := fileLen - Align(p.end, p.meta.alignment);
            r.expert == Owned(p.tensors, dataLen, true) && r.base == Owned(p.tensors, dataLen, false)
  {
    hide Align;
    hide SortInfos;
    hide AddUp;
    hide Owned;
    var dataLen := fileLen - Align(p.end, p.meta.alignment);
    AccountingIsExact(fileLen, p);
    var s := SortInfos(p.tensors);
    SortedWithin(p.tensors, dataLen);
    NoneOwned(s, s[0].offset, true);
    NoneOwned(s, s[0].offset, false);
    AddUpCounts(s, 0, dataLen, Sums(0, 0));
    SortOwned(p.tensors, dataLen, true);
    SortOwned(p.tensors, dataLen, false);
  }

  // A table without tensors: all is overhead.
  lemma EmptyTableIsOverhead(fileLen: nat, p: Parsed)
    requires p.tensors == []
    ensures Account(fileLen, p) == Some(Profile(p.meta.expertCount, p.meta.expertUsedCount, fileLen, 0, 0, fileLen))
  {}

  /* ----- which tensors are experts, and which members count ----- */

  predicate Mentions(name: string, mark: string) {
    exists i :: 0 <= i <= |name| - |mark| && SameIgnoringCase(name[i..][..|mark|], mark)
  }

  const EXPERT_MARKS := {"ffn_gate_exps", "ffn_up_exps", "ffn_down_exps", "exp_probs", ".expert", "_expert"}
  const SHARED_MARKS := {"shared_expert", "sharedexpert", "shexp"}

  lemma SmallLetters(mark: string)
    requires mark in EXPERT_MARKS + SHARED_MARKS
    ensures Lower(mark) == mark
  {
    assert forall i :: 0 <= i < |mark| ==> !('A' <= mark[i] <= 'Z');
  }

  lemma LowerPart(name: string, i: nat, n: nat)
    requires i + n <= |name|
    ensures Lower(name)[i..][..n] == Lower(name[i..][..n])
  {}

  lemma MentionsIs(name: string, mark: string)
    requires Lower(mark) == mark
    ensures Contains(Lower(name), mark) <==> Mentions(name, mark)
  {
    var low := Lower(name);
    forall i | 0 <= i <= |name| - |mark|
      ensures low[i..][..|mark|] == Lower(name[i..][..|mark|])
    {
      LowerPart(name, i, |mark|);
    }
    hide Lower;
    if Contains(low, mark) {
      var i :| 0 <= i <= |low| - |mark| && low[i..][..|mark|] == mark;
      assert SameIgnoringCase(name[i..][..|mark|], mark);
    }
  }

  // In capital or small letters alike: some mark of an expert, and none of a shared one.
  lemma ExpertTensors(name: string)
    ensures IsExpertTensor(name) <==>
            (exists mark :: mark in EXPERT_MARKS && Mentions(name, mark))
            && !exists mark :: mark in SHARED_MARKS && Mentions(name, mark)
  {
    hide Mentions;
    hide Contains;
    forall mark | mark in EXPERT_MARKS + SHARED_MARKS
      ensures Contains(Lower(name), mark) <==> Mentions(name, mark)
    {
      SmallLetters(mark);
      MentionsIs(name, mark);
    }
  }

  // The alignment under its own key, the counts under any key of their names; the last one that
  // can be read wins, and an alignment of 0 is one of 1.
  lemma MembersCount(meta: Meta, model: string, n: nat)
    ensures Stored(meta, SlotOf("general.alignment"), Some(n)) == meta.(alignment := if n == 0 then 1 else n)
    ensures Stored(meta, SlotOf(model + ".expert_count"), Some(n)) == meta.(expertCount := n)
    ensures Stored(meta, SlotOf(model + ".expert_used_count"), Some(n)) == meta.(expertUsedCount := n)
    ensures forall slot :: Stored(meta, slot, None) == meta
    ensures NO_META == Meta(0, 0, 32)
  {
    var count, used := model + ".expert_count", model + ".expert_used_count";
    assert count[|model|..] == ".expert_count" && used[|model|..] == ".expert_used_count";
    assert count[|count| - 3] == 'u' && used[|used| - 3] == 'u' && "general.alignment"[17 - 3] == 'e';
    assert used[|used| - 13..][6] == 'd' && ".expert_count"[6] == 't';
  }

  // And no other key counts.
  lemma OtherKeysAreUnused(key: string)
    requires key != "general.alignment" && !HasSuffix(key, ".expert_count") && !HasSuffix(key, ".expert_used_count")
    ensures SlotOf(key) == Unused
  {}
}
