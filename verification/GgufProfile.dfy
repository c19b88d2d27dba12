/** Which bytes of a GGUF file are always resident and which belong to experts. */
module GgufProfile {
  import opened Results
  import opened Wire
  import opened Text
  import opened Gguf
  import opened Division
  import opened Sets
  import opened Sorting
  import RT = GgufRoundTrip

  datatype Meta = Meta(expertCount: nat, expertUsedCount: nat, alignment: nat)
  datatype Parsed = Parsed(meta: Meta, tensors: seq<TensorInfo>, end: nat)
  datatype Profile = Profile(expertCount: nat, expertUsedCount: nat, full: nat, base: nat, expert: nat, overhead: nat)

  const NO_META := Meta(0, 0, 32)

  datatype Slot = Alignment | ExpertCount | ExpertUsed | Unused

  function SlotOf(key: string): Slot {
    if key == "general.alignment" then Alignment
    else if HasSuffix(key, ".expert_count") then ExpertCount
    else if HasSuffix(key, ".expert_used_count") then ExpertUsed
    else Unused
  }

  function Stored(meta: Meta, slot: Slot, value: Option<nat>): Meta {
    if value.None? then meta
    else
      match slot
      case Alignment => meta.(alignment := if value.value > 1 then value.value else 1)
      case ExpertCount => meta.(expertCount := value.value)
      case ExpertUsed => meta.(expertUsedCount := value.value)
      case Unused => meta
  }

  // A known key whose value cannot be read as a number is passed over; an unknown one whose
  // value cannot be skipped ends the scan.
  function ReadKvs(data: Bytes, pos: nat, count: nat, meta: Meta): Read<Meta>
    decreases count
  {
    if count == 0 then Got(meta, pos)
    else
      match ReadName(data, pos)
      case Failed(at) => Failed(at)
      case Got(name, p) =>
        var slot := SlotOf(name.key);
        if slot.Unused? then
          match SkipValue(data, p, name.t, 0)
          case Failed(at) => Failed(at)
          case Got(_, at) => ReadKvs(data, at, count - 1, meta)
        else
          match ReadAsU32(data, p, name.t)
          case Failed(at) => ReadKvs(data, at, count - 1, meta)
          case Got(value, at) => ReadKvs(data, at, count - 1, Stored(meta, slot, value))
  }

  function HeaderOf(data: Bytes): Option<Parsed> {
    match ReadStart(data)
    case Failed(_) => None
    case Got(counts, p) =>
      match ReadKvs(data, p, counts.kvs, NO_META)
      case Failed(_) => None
      case Got(meta, q) =>
        match ReadTensors(data, q, counts.tensors, [])
        case Failed(_) => None
        case Got(tensors, end) => Some(Parsed(meta, tensors, end))
  }

  /* ----- accounting ----- */

  function Align(value: nat, alignment: nat): nat {
    var a := if alignment > 1 then alignment else 1;
    var remainder := value % a;
    if remainder == 0 then value else value + (a - remainder)
  }

  predicate IsExpertTensor(name: string) {
    var lower := Lower(name);
    if Contains(lower, "shared_expert") || Contains(lower, "sharedexpert") || Contains(lower, "shexp") then false
    else
      || Contains(lower, "ffn_gate_exps") || Contains(lower, "ffn_up_exps") || Contains(lower, "ffn_down_exps")
      || Contains(lower, "exp_probs") || Contains(lower, ".expert") || Contains(lower, "_expert")
  }

  function OffsetOf(t: TensorInfo): nat {
    t.offset
  }

  // `sort_by_key`: stable.
  function SortInfos(s: seq<TensorInfo>): (r: seq<TensorInfo>)
    ensures |r| == |s|
  {
    SortBy(s, OffsetOf)
  }

  function SatAdd(a: nat, b: nat): nat {
    if a + b < U64_LIMIT then a + b else U64_LIMIT - 1
  }

  function SatSub(a: nat, b: nat): nat {
    if a >= b then a - b else 0
  }

  datatype Sums = Sums(base: nat, expert: nat)

  // A tensor reaches up to the next offset, the last one up to the end of the data.
  function NextOffset(sorted: seq<TensorInfo>, i: nat, dataLen: nat): nat
    requires i < |sorted|
  {
    if i + 1 < |sorted| then sorted[i + 1].offset else dataLen
  }

  function AddUp(sorted: seq<TensorInfo>, i: nat, dataLen: nat, sums: Sums): Option<Sums>
    requires i <= |sorted|
    decreases |sorted| - i
  {
    if i == |sorted| then Some(sums)
    else
      var next := NextOffset(sorted, i, dataLen);
      if next < sorted[i].offset || next > dataLen then None
      else
        var size := next - sorted[i].offset;
        AddUp(sorted, i + 1, dataLen,
              if IsExpertTensor(sorted[i].name) then sums.(expert := SatAdd(sums.expert, size))
              else sums.(base := SatAdd(sums.base, size)))
  }

  function Account(fileLen: nat, p: Parsed): Option<Profile> {
    if p.tensors == [] then Some(Profile(p.meta.expertCount, p.meta.expertUsedCount, fileLen, 0, 0, fileLen))
    else
      var start := Align(p.end, p.meta.alignment);
      if start > fileLen then None
      else
        var sorted := SortInfos(p.tensors);
        if sorted[0].offset > fileLen - start then None
        else
          match AddUp(sorted, 0, fileLen - start, Sums(0, 0))
          case None => None
          case Some(s) =>
            Some(Profile(p.meta.expertCount, p.meta.expertUsedCount, fileLen, s.base, s.expert,
                         SatSub(fileLen, s.base + s.expert)))
  }

  function ByteProfile(data: Bytes): Option<Profile> {
    match HeaderOf(data)
    case None => None
    case Some(p) => Account(|data|, p)
  }

  method ScanKvs(f: File, count: nat) returns (r: Result<Meta, ()>)
    modifies f
    ensures Gguf.Outcome(r, f.pos) == ReadKvs(f.data, old(f.pos), count, NO_META)
  {
    hide ReadName;
    hide SkipValue;
    hide ReadAsU32;
    hide SlotOf;
    var meta := NO_META;
    for i := 0 to count
      invariant ReadKvs(f.data, f.pos, count - i, meta) == ReadKvs(f.data, old(f.pos), count, NO_META)
    {
      var name := f.KvName();
      if name.Err? {
        return Err(());
      }
      var slot := SlotOf(name.value.key);
      if slot.Unused? {
        var skipped := f.SkipGgufValue(name.value.t, 0);
        if skipped.Err? {
          return Err(());
        }
      } else {
        var value := f.AsU32(name.value.t);
        if value.Ok? {
          meta := Stored(meta, slot, value.value);
        }
      }
    }
    r := Ok(meta);
  }

  method SumSizes(sorted: seq<TensorInfo>, dataLen: nat) returns (r: Option<Sums>)
    ensures r == AddUp(sorted, 0, dataLen, Sums(0, 0))
  {
    hide IsExpertTensor;
    var base, expert := 0, 0;
    for i := 0 to |sorted|
      invariant AddUp(sorted, i, dataLen, Sums(base, expert)) == AddUp(sorted, 0, dataLen, Sums(0, 0))
    {
      var next := if i + 1 < |sorted| then sorted[i + 1].offset else dataLen;
      if next < sorted[i].offset || next > dataLen {
        return None;
      }
      var size := next - sorted[i].offset;
      if IsExpertTensor(sorted[i].name) {
        expert := SatAdd(expert, size);
      } else {
        base := SatAdd(base, size);
      }
    }
    r := Some(Sums(base, expert));
  }

  method ScanGgufTensorByteProfile(data: Bytes) returns (r: Option<Profile>)
    ensures r == ByteProfile(data)
  {
    hide ReadStart;
    hide ReadKvs;
    hide ReadTensors;
    hide AddUp;
    hide Align;
    var f := new File(data);
    var counts := f.Start();
    if counts.Err? {
      return None;
    }
    var meta := ScanKvs(f, counts.value.kvs);
    if meta.Err? {
      return None;
    }
    var tensors := f.TensorInfos(counts.value.tensors);
    if tensors.Err? {
      return None;
    }
    var m, fileLen := meta.value, |data|;
    if tensors.value == [] {
      return Some(Profile(m.expertCount, m.expertUsedCount, fileLen, 0, 0, fileLen));
    }
    var start := Align(f.pos, m.alignment);
    if start > fileLen {
      return None;
    }
    var dataLen := fileLen - start;
    var sorted := SortInfos(tensors.value);
    if sorted[0].offset > dataLen {
      return None;
    }
    var sums := SumSizes(sorted, dataLen);
    if sums.None? {
      return None;
    }
    var s := sums.value;
    r := Some(Profile(m.expertCount, m.expertUsedCount, fileLen, s.base, s.expert, SatSub(fileLen, s.base + s.expert)));
  }

  /* ----- sorting ----- */

  predicate ByOffset(s: seq<TensorInfo>) {
    forall i, j :: 0 <= i < j < |s| ==> s[i].offset <= s[j].offset
  }

  predicate DistinctOffsets(s: seq<TensorInfo>) {
    forall i, j :: 0 <= i < j < |s| ==> s[i].offset != s[j].offset
  }

  lemma SortSorts(s: seq<TensorInfo>)
    ensures ByOffset(SortInfos(s)) && multiset(SortInfos(s)) == multiset(s)
  {
    Sorting.SortSorts(s, OffsetOf);
  }

  /* ----- what the sums are ----- */

  function Least(tensors: seq<TensorInfo>): (m: nat)
    requires tensors != []
    ensures forall i :: 0 <= i < |tensors| ==> m <= tensors[i].offset
    ensures exists i :: 0 <= i < |tensors| && tensors[i].offset == m
  {
    var last := tensors[|tensors| - 1].offset;
    if |tensors| == 1 then last
    else
      var init := tensors[..|tensors| - 1];
      var m := Least(init);
      assert exists i :: 0 <= i < |init| && init[i].offset == m && tensors[i] == init[i];
      assert forall i :: 0 <= i < |init| ==> tensors[i] == init[i];
      if m < last then m else last
  }

  predicate AllWithin(tensors: seq<TensorInfo>, dataLen: nat) {
    forall i :: 0 <= i < |tensors| ==> tensors[i].offset <= dataLen
  }

  // From position `i` on, the sums grow by exactly the bytes up to the end, without saturating.
  lemma {:induction false} AddUpIs(sorted: seq<TensorInfo>, i: nat, dataLen: nat, sums: Sums)
    requires ByOffset(sorted) && i < |sorted| && dataLen < U64_LIMIT
    requires sorted[i].offset <= dataLen ==> sums.base + sums.expert <= sorted[i].offset
    ensures AddUp(sorted, i, dataLen, sums).Some? <==> sorted[|sorted| - 1].offset <= dataLen
    ensures AddUp(sorted, i, dataLen, sums).Some? ==>
              var s := AddUp(sorted, i, dataLen, sums).value;
              s.base + s.expert == sums.base + sums.expert + (dataLen - sorted[i].offset)
    decreases |sorted| - i
  {
    hide IsExpertTensor;
    var next := NextOffset(sorted, i, dataLen);
    if next >= sorted[i].offset && next <= dataLen {
      var size := next - sorted[i].offset;
      var more := if IsExpertTensor(sorted[i].name) then sums.(expert := SatAdd(sums.expert, size))
                  else sums.(base := SatAdd(sums.base, size));
      assert more.base + more.expert == sums.base + sums.expert + size;
      if i + 1 < |sorted| {
        AddUpIs(sorted, i + 1, dataLen, more);
      }
    }
  }

  lemma SortedEnds(tensors: seq<TensorInfo>)
    requires tensors != []
    ensures SortInfos(tensors)[0].offset == Least(tensors)
    ensures forall dataLen :: SortInfos(tensors)[|tensors| - 1].offset <= dataLen <==> AllWithin(tensors, dataLen)
  {
    hide SortInfos;
    hide Least;
    SortSorts(tensors);
    var sorted := SortInfos(tensors);
    forall i | 0 <= i < |tensors|
      ensures sorted[0].offset <= tensors[i].offset <= sorted[|sorted| - 1].offset
    {
      SomewhereIn(tensors, sorted, i);
    }
    SomewhereIn(sorted, tensors, 0);
    SomewhereIn(sorted, tensors, |sorted| - 1);
  }

  lemma SomewhereIn(a: seq<TensorInfo>, b: seq<TensorInfo>, i: nat)
    requires multiset(a) == multiset(b) && i < |a|
    ensures |a| == |b| && exists j :: 0 <= j < |b| && b[j] == a[i]
  {
    SameCountsSameLength(a, b);
    assert a[i] in multiset(b);
  }

  // With a non-empty table the profile exists exactly when the aligned data start lies in the
  // file and every offset in the data; then base, expert and overhead make up the file, and base
  // and expert the data from the least offset on.
  lemma AccountingIsExact(fileLen: nat, p: Parsed)
    requires p.tensors != [] && fileLen < U64_LIMIT
    ensures var start := Align(p.end, p.meta.alignment);
            Account(fileLen, p).Some? <==> start <= fileLen && AllWithin(p.tensors, fileLen - start)
    ensures Account(fileLen, p).Some? ==>
              var r := Account(fileLen, p).value;
              var dataLen := fileLen - Align(p.end, p.meta.alignment);
              && r.full == fileLen && r.base + r.expert + r.overhead == fileLen
              && r.base + r.expert == dataLen - Least(p.tensors)
              && r.expertCount == p.meta.expertCount && r.expertUsedCount == p.meta.expertUsedCount
  {
    hide Align;
    hide SortInfos;
    hide AddUp;
    hide Least;
    hide AllWithin;
    var start := Align(p.end, p.meta.alignment);
    if start <= fileLen {
      SortSorts(p.tensors);
      SortedEnds(p.tensors);
      var sorted := SortInfos(p.tensors);
      AddUpIs2(sorted, fileLen - start);
    }
  }

  lemma AddUpIs2(sorted: seq<TensorInfo>, dataLen: nat)
    requires ByOffset(sorted) && sorted != [] && dataLen < U64_LIMIT
    ensures AddUp(sorted, 0, dataLen, Sums(0, 0)).Some? <==> sorted[|sorted| - 1].offset <= dataLen
    ensures AddUp(sorted, 0, dataLen, Sums(0, 0)).Some? ==>
              var s := AddUp(sorted, 0, dataLen, Sums(0, 0)).value;
              s.base + s.expert == dataLen - sorted[0].offset
    ensures sorted[|sorted| - 1].offset <= dataLen ==> sorted[0].offset <= dataLen
  {
    AddUpIs(sorted, 0, dataLen, Sums(0, 0));
  }

  lemma AlignIsLeastMultiple(value: nat, alignment: nat)
    ensures var a := if alignment > 1 then alignment else 1;
            Align(value, alignment) % a == 0 && value <= Align(value, alignment) < value + a
  {
    var a := if alignment > 1 then alignment else 1;
    if value % a != 0 {
      var q := value / a;
      assert value == q * a + value % a;
      assert Align(value, alignment) == (q + 1) * a;
      Remainder((q + 1) * a, q + 1, a, 0);
    }
  }

  /* ----- when table order matters ----- */

  // Two entries of different kinds share an offset inside the data, so that one of them gets the
  // bytes up to the next offset and the other none.
  predicate MixedTie(tensors: seq<TensorInfo>, dataLen: nat) {
    exists i, j :: 0 <= i < |tensors| && 0 <= j < |tensors| && Tied(tensors[i], tensors[j], dataLen)
  }

  predicate Tied(e: TensorInfo, b: TensorInfo, dataLen: nat) {
    e.offset == b.offset < dataLen && IsExpertTensor(e.name) && !IsExpertTensor(b.name)
  }

  function Offsets(s: seq<TensorInfo>): (r: seq<nat>)
    ensures |r| == |s|
  {
    seq(|s|, i requires 0 <= i < |s| => s[i].offset)
  }

  lemma {:induction false} SameOffsetsCounted(a: seq<TensorInfo>, b: seq<TensorInfo>)
    requires multiset(a) == multiset(b)
    ensures multiset(Offsets(a)) == multiset(Offsets(b))
    decreases |a|
  {
    hide Offsets;
    SameCountsSameLength(a, b);
    if a == [] {
      assert a == b;
    } else {
      var j := TakenFromBoth(a, b);
      SameOffsetsCounted(a[1..], b[..j] + b[j + 1..]);
      OffsetsTail(a);
      OffsetsWithout(b, j);
      SamePutBack(multiset(Offsets(a)), multiset(Offsets(b)), a[0].offset);
    }
  }

  lemma OffsetsTail(s: seq<TensorInfo>)
    requires s != []
    ensures multiset(Offsets(s[1..])) == multiset(Offsets(s)) - multiset{s[0].offset}
    ensures s[0].offset in multiset(Offsets(s))
  {
    OffsetsWithout(s, 0);
    assert s[..0] + s[0 + 1..] == s[1..];
  }

  lemma SamePutBack(a: multiset<nat>, b: multiset<nat>, x: nat)
    requires x in a && x in b && a - multiset{x} == b - multiset{x}
    ensures a == b
  {
    assert a == a - multiset{x} + multiset{x};
    assert b == b - multiset{x} + multiset{x};
  }

  lemma OffsetsWithout(s: seq<TensorInfo>, i: nat)
    requires i < |s|
    ensures multiset(Offsets(s[..i] + s[i + 1..])) == multiset(Offsets(s)) - multiset{s[i].offset}
    ensures s[i].offset in multiset(Offsets(s))
  {
    assert Offsets(s)[i] == s[i].offset;
    CountWithout(Offsets(s), i);
    assert Offsets(s[..i] + s[i + 1..]) == Offsets(s)[..i] + Offsets(s)[i + 1..];
  }

  predicate Rising(s: seq<nat>) {
    forall i, j :: 0 <= i < j < |s| ==> s[i] <= s[j]
  }

  lemma {:induction false} SortedNumbersAreUnique(a: seq<nat>, b: seq<nat>)
    requires Rising(a) && Rising(b) && multiset(a) == multiset(b)
    ensures a == b
    decreases |a|
  {
    hide Rising;
    SameCountsSameLength(a, b);
    if a != [] {
      RisingTail(a, b);
      RisingTail(b, a);
      CountTail(a);
      CountTail(b);
      SortedNumbersAreUnique(a[1..], b[1..]);
      assert a == [a[0]] + a[1..] && b == [b[0]] + b[1..];
    }
  }

  lemma RisingTail(a: seq<nat>, b: seq<nat>)
    requires Rising(a) && a != [] && b != [] && multiset(a) == multiset(b)
    ensures Rising(a[1..]) && a[0] <= b[0]
  {
    assert b[0] in multiset(a);
  }

  // Two sorted orders of one table have the same offset at every position.
  lemma SameOffsets(a: seq<TensorInfo>, b: seq<TensorInfo>)
    requires ByOffset(a) && ByOffset(b) && multiset(a) == multiset(b)
    ensures |a| == |b| && forall i :: 0 <= i < |a| ==> a[i].offset == b[i].offset
  {
    SameOffsetsCounted(a, b);
    assert Rising(Offsets(a)) && Rising(Offsets(b));
    SortedNumbersAreUnique(Offsets(a), Offsets(b));
    assert forall i :: 0 <= i < |a| ==> Offsets(a)[i] == a[i].offset && Offsets(b)[i] == b[i].offset;
  }

  lemma DistinctOrder(s: seq<TensorInfo>, a: seq<TensorInfo>, b: seq<TensorInfo>)
    requires ByOffset(a) && ByOffset(b) && DistinctOffsets(s) && multiset(a) == multiset(s) == multiset(b)
    ensures a == b
  {
    SameOffsets(a, b);
    hide ByOffset;
    forall i | 0 <= i < |a|
      ensures a[i] == b[i]
    {
      SomewhereIn(a, s, i);
      SomewhereIn(b, s, i);
      var j :| 0 <= j < |s| && s[j] == a[i];
      var k :| 0 <= k < |s| && s[k] == b[i];
      assert s[j].offset == s[k].offset;
    }
  }

  // Only the set of entries counts when offsets are distinct.
  lemma TableOrderIsIrrelevant(fileLen: nat, p: Parsed, tensors: seq<TensorInfo>)
    requires multiset(tensors) == multiset(p.tensors) && DistinctOffsets(p.tensors)
    ensures Account(fileLen, p.(tensors := tensors)) == Account(fileLen, p)
  {
    hide AddUp;
    hide Align;
    SortSorts(tensors);
    SortSorts(p.tensors);
    hide SortInfos;
    hide DistinctOffsets;
    DistinctOrder(p.tensors, SortInfos(p.tensors), SortInfos(tensors));
    assert |tensors| == |multiset(tensors)| == |multiset(p.tensors)| == |p.tensors|;
  }

  // The sums see offsets, and kinds where an entry starts inside the data.
  lemma {:induction false} SameSums(a: seq<TensorInfo>, b: seq<TensorInfo>, i: nat, dataLen: nat, sums: Sums)
    requires |a| == |b| && i <= |a| && ByOffset(a) && sums.base < U64_LIMIT && sums.expert < U64_LIMIT
    requires forall k :: 0 <= k < |a| ==> a[k].offset == b[k].offset
    requires forall k :: 0 <= k < |a| && a[k].offset < dataLen ==>
               IsExpertTensor(a[k].name) == IsExpertTensor(b[k].name)
    ensures AddUp(a, i, dataLen, sums) == AddUp(b, i, dataLen, sums)
    decreases |a| - i
  {
    hide IsExpertTensor;
    if i < |a| {
      var next := NextOffset(a, i, dataLen);
      if a[i].offset <= next <= dataLen {
        var size := next - a[i].offset;
        SameSums(a, b, i + 1, dataLen, sums.(expert := SatAdd(sums.expert, size)));
        SameSums(a, b, i + 1, dataLen, sums.(base := SatAdd(sums.base, size)));
      }
    }
  }

  lemma NoTieNoDifference(a: seq<TensorInfo>, b: seq<TensorInfo>, dataLen: nat)
    requires ByOffset(a) && ByOffset(b) && multiset(a) == multiset(b) && !MixedTie(a, dataLen)
    ensures AddUp(a, 0, dataLen, Sums(0, 0)) == AddUp(b, 0, dataLen, Sums(0, 0))
  {
    hide IsExpertTensor;
    SameOffsets(a, b);
    forall k | 0 <= k < |a| && a[k].offset < dataLen
      ensures IsExpertTensor(a[k].name) == IsExpertTensor(b[k].name)
    {
      SomewhereIn(b, a, k);
      var j :| 0 <= j < |a| && a[j] == b[k];
      assert !Tied(a[k], a[j], dataLen) && !Tied(a[j], a[k], dataLen);
    }
    SameSums(a, b, 0, dataLen, Sums(0, 0));
  }

  /* ----- the last entry of a tie gets the bytes ----- */

  lemma {:induction false} InsertBefore(t: TensorInfo, x: seq<TensorInfo>, pair: seq<TensorInfo>, y: seq<TensorInfo>,
                                        o: nat)
    requires pair != [] && pair[0].offset == o && t.offset <= o
    ensures InsertBy(t, x + pair + y, OffsetOf) == InsertBy(t, x, OffsetOf) + pair + y
    decreases |x|
  {
    if x == [] {
      assert x + pair + y == pair + y;
      assert InsertBy(t, [], OffsetOf) == [t];
    } else if t.offset > x[0].offset {
      assert (x + pair + y)[1..] == x[1..] + pair + y;
      InsertBefore(t, x[1..], pair, y, o);
      assert [x[0]] + (InsertBy(t, x[1..], OffsetOf) + pair + y) == [x[0]] + InsertBy(t, x[1..], OffsetOf) + pair + y;
    } else {
      assert [t] + (x + pair + y) == [t] + x + pair + y;
    }
  }

  lemma {:induction false} InsertAfter(t: TensorInfo, x: seq<TensorInfo>, y: seq<TensorInfo>)
    requires forall i :: 0 <= i < |x| ==> x[i].offset < t.offset
    ensures InsertBy(t, x + y, OffsetOf) == x + InsertBy(t, y, OffsetOf)
    decreases |x|
  {
    if x == [] {
      assert x + y == y;
    } else {
      assert (x + y)[1..] == x[1..] + y;
      InsertAfter(t, x[1..], y);
      assert [x[0]] + (x[1..] + InsertBy(t, y, OffsetOf)) == x + InsertBy(t, y, OffsetOf);
    }
  }

  // Inserting an entry into two sorted lists that differ in the order of a tie only.
  lemma InsertAroundTie(t: TensorInfo, e: TensorInfo, b: TensorInfo, x: seq<TensorInfo>, y: seq<TensorInfo>)
    returns (x': seq<TensorInfo>, y': seq<TensorInfo>)
    requires e.offset == b.offset && AllWithin(x, e.offset) && AllAfter(y, e.offset)
    ensures InsertBy(t, x + [e, b] + y, OffsetOf) == x' + [e, b] + y'
    ensures InsertBy(t, x + [b, e] + y, OffsetOf) == x' + [b, e] + y'
    ensures AllWithin(x', e.offset) && AllAfter(y', e.offset)
  {
    if t.offset <= e.offset {
      InsertBefore(t, x, [e, b], y, e.offset);
      InsertBefore(t, x, [b, e], y, e.offset);
      x', y' := InsertBy(t, x, OffsetOf), y;
      InsertedOneOf(t, x);
    } else {
      InsertAfter(t, x + [e, b], y);
      InsertAfter(t, x + [b, e], y);
      x', y' := x, InsertBy(t, y, OffsetOf);
      InsertedOneOf(t, y);
    }
  }

  predicate AllAfter(s: seq<TensorInfo>, offset: nat) {
    forall i :: 0 <= i < |s| ==> s[i].offset > offset
  }

  // A stable sort leaves two entries of equal offset at the end of a table side by side, in their
  // order, after all others of that offset.
  lemma {:induction false} TieStaysLast(rest: seq<TensorInfo>, e: TensorInfo, b: TensorInfo)
    returns (x: seq<TensorInfo>, y: seq<TensorInfo>)
    requires e.offset == b.offset
    ensures SortInfos(rest + [e, b]) == x + [e, b] + y && SortInfos(rest + [b, e]) == x + [b, e] + y
    ensures AllWithin(x, e.offset) && AllAfter(y, e.offset)
    decreases |rest|
  {
    if rest == [] {
      x, y := [], [];
      TwoSort(rest, e, b);
      TwoSort(rest, b, e);
    } else {
      hide InsertBy;
      hide AllWithin;
      hide AllAfter;
      var x', y' := TieStaysLast(rest[1..], e, b);
      assert (rest + [e, b])[1..] == rest[1..] + [e, b] && (rest + [b, e])[1..] == rest[1..] + [b, e];
      x, y := InsertAroundTie(rest[0], e, b, x', y');
    }
  }

  lemma TwoSort(none: seq<TensorInfo>, e: TensorInfo, b: TensorInfo)
    requires none == [] && e.offset == b.offset
    ensures SortInfos(none + [e, b]) == none + [e, b] + none
  {
    assert none + [e, b] == [e, b] == none + [e, b] + none;
    assert [e, b][1..] == [b] && [b][1..] == [];
    assert SortInfos([b]) == [b];
  }

  lemma {:induction false} InsertedOneOf(t: TensorInfo, s: seq<TensorInfo>)
    ensures forall i :: 0 <= i < |InsertBy(t, s, OffsetOf)| ==>
              InsertBy(t, s, OffsetOf)[i] == t || InsertBy(t, s, OffsetOf)[i] in s
    decreases |s|
  {
    if s != [] {
      InsertedOneOf(t, s[1..]);
      assert forall u :: u in s[1..] ==> u in s;
    }
  }

  // The bytes of expert tensors from position `i` on, of a sorted table inside the data.
  function ExpertBytes(sorted: seq<TensorInfo>, i: nat, dataLen: nat): int
    requires i <= |sorted|
    decreases |sorted| - i
  {
    if i == |sorted| then 0
    else ExpertBytes(sorted, i + 1, dataLen)
         + if IsExpertTensor(sorted[i].name) then NextOffset(sorted, i, dataLen) - sorted[i].offset else 0
  }

  lemma {:induction false} AddUpExpert(sorted: seq<TensorInfo>, i: nat, dataLen: nat, sums: Sums)
    requires ByOffset(sorted) && i <= |sorted| && dataLen < U64_LIMIT
    requires forall k :: 0 <= k < |sorted| ==> sorted[k].offset <= dataLen
    requires sums.base + sums.expert <= if i < |sorted| then sorted[i].offset else dataLen
    ensures AddUp(sorted, i, dataLen, sums).Some?
    ensures AddUp(sorted, i, dataLen, sums).value.expert == sums.expert + ExpertBytes(sorted, i, dataLen)
    decreases |sorted| - i
  {
    hide IsExpertTensor;
    if i < |sorted| {
      var size := NextOffset(sorted, i, dataLen) - sorted[i].offset;
      if IsExpertTensor(sorted[i].name) {
        AddUpExpert(sorted, i + 1, dataLen, sums.(expert := SatAdd(sums.expert, size)));
      } else {
        AddUpExpert(sorted, i + 1, dataLen, sums.(base := SatAdd(sums.base, size)));
      }
    }
  }

  // Behind the tie both orders have the same expert bytes, and before it.
  lemma {:induction false} SameBehind(x: seq<TensorInfo>, e: TensorInfo, b: TensorInfo, y: seq<TensorInfo>, i: nat,
                                      dataLen: nat)
    requires |x| + 2 <= i <= |x| + 2 + |y|
    ensures ExpertBytes(x + [e, b] + y, i, dataLen) == ExpertBytes(x + [b, e] + y, i, dataLen)
    decreases |x| + 2 + |y| - i
  {
    hide IsExpertTensor;
    var s, t := x + [e, b] + y, x + [b, e] + y;
    if i < |s| {
      SameBehind(x, e, b, y, i + 1, dataLen);
      assert s[i] == t[i];
      assert i + 1 < |s| ==> s[i + 1] == t[i + 1];
    }
  }

  // The bytes a tie has before what follows it.
  function Gap(y: seq<TensorInfo>, offset: nat, dataLen: nat): int {
    (if y == [] then dataLen else y[0].offset) - offset
  }

  // They go to the entry that comes last.
  lemma {:induction false} TieMoves(x: seq<TensorInfo>, e: TensorInfo, b: TensorInfo, y: seq<TensorInfo>, i: nat,
                                    dataLen: nat)
    requires e.offset == b.offset && i <= |x|
    ensures var gap := Gap(y, e.offset, dataLen);
            ExpertBytes(x + [b, e] + y, i, dataLen) - ExpertBytes(x + [e, b] + y, i, dataLen)
            == (if IsExpertTensor(e.name) then gap else 0) - if IsExpertTensor(b.name) then gap else 0
    decreases |x| - i
  {
    hide IsExpertTensor;
    var s, t := x + [e, b] + y, x + [b, e] + y;
    var n := |x|;
    if i == n {
      SameBehind(x, e, b, y, n + 2, dataLen);
      assert s[n] == e && s[n + 1] == b && t[n] == b && t[n + 1] == e;
      assert y != [] ==> s[n + 2] == y[0] && t[n + 2] == y[0];
      assert NextOffset(s, n, dataLen) == e.offset && NextOffset(t, n, dataLen) == e.offset;
      assert ExpertBytes(s, n, dataLen) == ExpertBytes(s, n + 1, dataLen);
      assert ExpertBytes(t, n, dataLen) == ExpertBytes(t, n + 1, dataLen);
    } else {
      TieMoves(x, e, b, y, i + 1, dataLen);
      assert s[i] == t[i] == x[i];
      assert NextOffset(s, i, dataLen) == NextOffset(t, i, dataLen) by {
        if i + 1 < n {
          assert s[i + 1] == t[i + 1] == x[i + 1];
        }
      }
    }
  }

  // Of two entries at one offset inside the data, the one that comes last in the table gets the
  // bytes: exchanging them leaves the profile alone exactly when they are of one kind.
  lemma TiesFollowTableOrder(fileLen: nat, p: Parsed, rest: seq<TensorInfo>, e: TensorInfo, b: TensorInfo)
    requires fileLen < U64_LIMIT && Align(p.end, p.meta.alignment) <= fileLen
    requires AllWithin(rest, fileLen - Align(p.end, p.meta.alignment))
    requires e.offset == b.offset < fileLen - Align(p.end, p.meta.alignment)
    ensures Account(fileLen, p.(tensors := rest + [e, b])) == Account(fileLen, p.(tensors := rest + [b, e]))
            <==> IsExpertTensor(e.name) == IsExpertTensor(b.name)
  {
    hide IsExpertTensor;
    hide Align;
    hide ByOffset;
    var dataLen := fileLen - Align(p.end, p.meta.alignment);
    var x, y := TieStaysLast(rest, e, b);
    TieMoves(x, e, b, y, 0, dataLen);
    SortedWithin(rest + [e, b], dataLen);
    SortedWithin(rest + [b, e], dataLen);
    hide SortInfos;
    hide ExpertBytes;
    hide AddUp;
    var s, t := x + [e, b] + y, x + [b, e] + y;
    AddUpExpert(s, 0, dataLen, Sums(0, 0));
    AddUpExpert(t, 0, dataLen, Sums(0, 0));
    AddUpIs2(s, dataLen);
    AddUpIs2(t, dataLen);
    assert s[0].offset == t[0].offset;
    assert Gap(y, e.offset, dataLen) > 0;
  }

  lemma SortedWithin(tensors: seq<TensorInfo>, dataLen: nat)
    requires AllWithin(tensors, dataLen)
    ensures ByOffset(SortInfos(tensors))
    ensures forall k :: 0 <= k < |tensors| ==> SortInfos(tensors)[k].offset <= dataLen
  {
    hide SortInfos;
    SortSorts(tensors);
    forall k | 0 <= k < |tensors|
      ensures SortInfos(tensors)[k].offset <= dataLen
    {
      SomewhereIn(SortInfos(tensors), tensors, k);
    }
  }

  // Every order of the table gives the same profile if and only if the data start or some offset
  // is out of range, or no two entries of different kinds share an offset inside the data.
  lemma TableOrderMattersExactly(fileLen: nat, p: Parsed)
    requires fileLen < U64_LIMIT
    ensures var start := Align(p.end, p.meta.alignment);
            (forall tensors :: multiset(tensors) == multiset(p.tensors) ==>
               Account(fileLen, p.(tensors := tensors)) == Account(fileLen, p))
            <==> start > fileLen || !AllWithin(p.tensors, fileLen - start) || !MixedTie(p.tensors, fileLen - start)
  {
    hide Align;
    hide Account;
    hide MixedTie;
    var start := Align(p.end, p.meta.alignment);
    hide IsExpertTensor;
    if start <= fileLen && AllWithin(p.tensors, fileLen - start) && MixedTie(p.tensors, fileLen - start) {
      var i, j := TiedAt(p.tensors, fileLen - start);
      var tensors, other := TieLast(fileLen, p, i, j);
      assert Account(fileLen, p.(tensors := tensors)) != Account(fileLen, p.(tensors := other));
    } else {
      forall tensors: seq<TensorInfo> | multiset(tensors) == multiset(p.tensors)
        ensures Account(fileLen, p.(tensors := tensors)) == Account(fileLen, p)
      {
        OrderDoesNotMatter(fileLen, p, tensors);
      }
    }
  }

  lemma TiedAt(s: seq<TensorInfo>, dataLen: nat) returns (i: nat, j: nat)
    ensures MixedTie(s, dataLen) ==>
              i < |s| && j < |s| && i != j && s[i].offset == s[j].offset < dataLen
              && IsExpertTensor(s[i].name) != IsExpertTensor(s[j].name)
  {
    hide IsExpertTensor;
    i, j := 0, 0;
    if MixedTie(s, dataLen) {
      i, j :| 0 <= i < |s| && 0 <= j < |s| && Tied(s[i], s[j], dataLen);
    }
  }

  lemma OrderDoesNotMatter(fileLen: nat, p: Parsed, tensors: seq<TensorInfo>)
    requires fileLen < U64_LIMIT && multiset(tensors) == multiset(p.tensors)
    requires var start := Align(p.end, p.meta.alignment);
             start > fileLen || !AllWithin(p.tensors, fileLen - start) || !MixedTie(p.tensors, fileLen - start)
    ensures Account(fileLen, p.(tensors := tensors)) == Account(fileLen, p)
  {
    hide Align;
    hide AddUp;
    hide SortInfos;
    hide ByOffset;
    hide Least;
    assert |tensors| == |multiset(tensors)| == |multiset(p.tensors)| == |p.tensors|;
    var start := Align(p.end, p.meta.alignment);
    if p.tensors != [] && start <= fileLen {
      var dataLen := fileLen - start;
      if AllWithin(p.tensors, dataLen) {
        var a, b := SortInfos(p.tensors), SortInfos(tensors);
        SortSorts(p.tensors);
        SortSorts(tensors);
        TieKept(p.tensors, a, dataLen);
        NoTieNoDifference(a, b, dataLen);
        SameOffsets(a, b);
      } else {
        WithinKept(p.tensors, tensors, dataLen);
        AccountingIsExact(fileLen, p);
        AccountingIsExact(fileLen, p.(tensors := tensors));
      }
    }
  }

  lemma TieKept(a: seq<TensorInfo>, b: seq<TensorInfo>, dataLen: nat)
    requires multiset(a) == multiset(b)
    ensures MixedTie(b, dataLen) ==> MixedTie(a, dataLen)
  {
    hide Tied;
    if MixedTie(b, dataLen) {
      var i, j :| 0 <= i < |b| && 0 <= j < |b| && Tied(b[i], b[j], dataLen);
      SomewhereIn(b, a, i);
      SomewhereIn(b, a, j);
    }
  }

  lemma WithinKept(a: seq<TensorInfo>, b: seq<TensorInfo>, dataLen: nat)
    requires multiset(a) == multiset(b)
    ensures AllWithin(b, dataLen) ==> AllWithin(a, dataLen)
  {
    if AllWithin(b, dataLen) {
      forall i | 0 <= i < |a|
        ensures a[i].offset <= dataLen
      {
        SomewhereIn(a, b, i);
      }
    }
  }

  // Two orders of a table that end in two entries of one offset.
  lemma TieLast(fileLen: nat, p: Parsed, i: nat, j: nat) returns (tensors: seq<TensorInfo>, other: seq<TensorInfo>)
    requires fileLen < U64_LIMIT && Align(p.end, p.meta.alignment) <= fileLen
    requires AllWithin(p.tensors, fileLen - Align(p.end, p.meta.alignment))
    requires i < |p.tensors| && j < |p.tensors| && i != j
    requires p.tensors[i].offset == p.tensors[j].offset < fileLen - Align(p.end, p.meta.alignment)
    ensures multiset(tensors) == multiset(p.tensors) && multiset(other) == multiset(p.tensors)
    ensures Account(fileLen, p.(tensors := tensors)) == Account(fileLen, p.(tensors := other))
            <==> IsExpertTensor(p.tensors[i].name) == IsExpertTensor(p.tensors[j].name)
  {
    hide Align;
    hide Account;
    hide IsExpertTensor;
    var dataLen := fileLen - Align(p.end, p.meta.alignment);
    var rest := TakeTwo(p.tensors, i, j, dataLen);
    tensors, other := rest + [p.tensors[i], p.tensors[j]], rest + [p.tensors[j], p.tensors[i]];
    TiesFollowTableOrder(fileLen, p, rest, p.tensors[i], p.tensors[j]);
  }

  lemma TakeTwo(s: seq<TensorInfo>, i: nat, j: nat, dataLen: nat) returns (rest: seq<TensorInfo>)
    requires i < |s| && j < |s| && i != j && AllWithin(s, dataLen)
    ensures multiset(rest + [s[i], s[j]]) == multiset(s) && multiset(rest + [s[j], s[i]]) == multiset(s)
    ensures AllWithin(rest, dataLen)
  {
    if i < j {
      rest := TwoTakenOut(s, i, j);
    } else {
      rest := TwoTakenOut(s, j, i);
    }
    forall k | 0 <= k < |rest|
      ensures rest[k].offset <= dataLen
    {
      assert rest[k] in s;
    }
  }

  /* ----- printed headers ----- */

  // The number a value stands for, where the scanner takes one.
  function NumberOf(v: RT.Value): Option<nat> {
    match v
    case Fixed(t, bytes) =>
      var n := FromLe(bytes);
      if t.Uint32? || t.Uint16? || t.Uint8? || (t.Int32? && n < U32_LIMIT / 2) then Some(n) else None
    case _ => None
  }

  // What the key-value section means: later entries win.
  function Meaning(kvs: seq<RT.Kv>, meta: Meta): Meta
    decreases |kvs|
  {
    if kvs == [] then meta
    else Meaning(kvs[1..], Stored(meta, SlotOf(kvs[0].key), NumberOf(kvs[0].value)))
  }

  lemma NumberLands(data: Bytes, pos: nat, v: RT.Value)
    requires RT.WellSized(v) && RT.Nesting(v) <= MAX_ARRAY_DEPTH && OccursAt(data, RT.Encode(v), pos)
    ensures var r := ReadAsU32(data, pos, RT.TypeOf(v));
            r.pos == pos + |RT.Encode(v)| && (if r.Got? then r.value == NumberOf(v) else NumberOf(v) == None)
  {
    hide SkipValue;
    hide FromLe;
    hide RT.Nesting;
    RT.SkipLands(data, pos, v, 0);
    if v.Fixed? {
      RT.ReadsBytes(data, pos, v.bytes);
    }
  }

  lemma {:induction false} KvsMean(data: Bytes, pos: nat, kvs: seq<RT.Kv>, meta: Meta)
    requires forall i :: 0 <= i < |kvs| ==> RT.ValidKv(kvs[i])
    requires OccursAt(data, RT.PrintKvs(kvs), pos)
    ensures ReadKvs(data, pos, |kvs|, meta) == Got(Meaning(kvs, meta), pos + |RT.PrintKvs(kvs)|)
    decreases |kvs|
  {
    hide ReadName;
    hide SkipValue;
    hide ReadAsU32;
    hide NumberOf;
    hide SlotOf;
    hide RT.Encode;
    hide RT.PrintKvName;
    hide RT.Nesting;
    if kvs != [] {
      var name, value := RT.PrintKvName(kvs[0]), RT.Encode(kvs[0].value);
      OccursJoin(data, name + value, RT.PrintKvs(kvs[1..]), pos);
      OccursJoin(data, name, value, pos);
      RT.NameReads(data, pos, kvs[0]);
      RT.SkipLands(data, pos + |name|, kvs[0].value, 0);
      NumberLands(data, pos + |name|, kvs[0].value);
      KvsMean(data, pos + |name| + |value|, kvs[1..], Stored(meta, SlotOf(kvs[0].key), NumberOf(kvs[0].value)));
    }
  }

  // The header of a printed file is read as what was printed.
  lemma HeaderRoundTrip(h: RT.Header, rest: Bytes)
    requires RT.ValidHeader(h)
    ensures HeaderOf(RT.Print(h) + rest) == Some(Parsed(Meaning(h.kvs, NO_META), RT.Infos(h.tensors), |RT.Print(h)|))
  {
    hide ReadStart;
    hide ReadKvs;
    hide ReadTensors;
    hide RT.PrintStart;
    hide RT.PrintKvs;
    hide RT.PrintTensors;
    hide RT.ValidKv;
    hide RT.ValidTensor;
    hide Meaning;
    var data := RT.Print(h) + rest;
    RT.HeaderParts(data, h);
    RT.StartReads(data, h);
    KvsMean(data, |RT.PrintStart(h)|, h.kvs, NO_META);
    RT.TensorsRead(data, |RT.PrintStart(h)| + |RT.PrintKvs(h.kvs)|, h.tensors, []);
    assert [] + RT.Infos(h.tensors) == RT.Infos(h.tensors);
  }
}
