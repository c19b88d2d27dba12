/** Which files the GGUF scanner accepts: what scans is a printed header. */
module GgufAccepts {
  import opened Results
  import opened Wire
  import opened Text
  import opened Gguf
  import opened GgufRoundTrip
  import Utf8

  // The thirteen types by their codes, and the sizes of those that have one.
  const SIZES: seq<nat> := [1, 1, 2, 2, 4, 4, 4, 1, 0, 0, 8, 8, 8]

  lemma KnownTypes(code: nat)
    ensures FromCode(code).Some? <==> code < 13
    ensures code < 13 && code != 8 && code != 9 ==> FixedSize(FromCode(code).value) == Some(SIZES[code])
    ensures FromCode(8) == Some(String) && FromCode(9) == Some(Array)
    ensures FixedSize(String) == None && FixedSize(Array) == None
  {}

  lemma KnownLimits()
    ensures MAGIC == Utf8.Encode("GGUF")
    ensures MAX_STRING_BYTES == MAX_ARRAY_ELEMENTS == MAX_TENSOR_COUNT == MAX_KV_COUNT == 1000 * 1000
    ensures MAX_ARRAY_DEPTH == 64 && MAX_TENSOR_DIMS == 8
  {
    Utf8.EncodeAscii("GGUF");
  }

  /* ----- single reads ----- */

  lemma NumberRead(data: Bytes, pos: nat, width: nat)
    requires width > 0 && ReadNumber(data, pos, width).Got?
    ensures var r := ReadNumber(data, pos, width);
            r.value < Pow256(width) && r.pos == pos + width <= |data| && OccursAt(data, ToLe(r.value, width), pos)
  {
    hide ToLe;
    hide FromLe;
    LeOfFrom(data[pos..pos + width]);
  }

  // A read that is cut short fails, and leaves the cursor at the end of the file or beyond it,
  // where a skip had put it.
  lemma ShortRead(data: Bytes, pos: nat, n: nat)
    requires n > 0 && pos + n > |data|
    ensures ReadExact(data, pos, n) == Failed(if pos <= |data| then |data| else pos)
  {}

  lemma StringRead(data: Bytes, pos: nat)
    requires ReadString(data, pos).Got?
    ensures var r := ReadString(data, pos);
            && |Utf8.Encode(r.value)| <= MAX_STRING_BYTES && r.pos == pos + |EncodeString(r.value)| <= |data|
            && OccursAt(data, EncodeString(r.value), pos)
  {
    hide ToLe;
    hide FromLe;
    hide Utf8.Encode;
    hide Utf8.Decode;
    NumberRead(data, pos, 8);
    var bytes := ReadExact(data, pos + 8, ReadNumber(data, pos, 8).value).value;
    Utf8.DecodeIsStrict(bytes);
    assert OccursAt(data, bytes, pos + 8);
    OccursJoin(data, ToLe(|bytes|, 8), bytes, pos);
  }

  lemma TypeRead(data: Bytes, pos: nat)
    requires ReadType(data, pos).Got?
    ensures var r := ReadType(data, pos); r.pos == pos + 4 <= |data| && OccursAt(data, ToLe(Code(r.value), 4), pos)
  {
    hide ToLe;
    hide FromLe;
    NumberRead(data, pos, 4);
    CodeOf(ReadNumber(data, pos, 4).value);
  }

  lemma CodeOf(code: nat)
    requires FromCode(code).Some?
    ensures Code(FromCode(code).value) == code
  {}

  /* ----- values ----- */

  lemma {:induction false} SkipGrows(data: Bytes, pos: nat, t: Type, depth: nat)
    requires depth <= MAX_ARRAY_DEPTH && SkipValue(data, pos, t, depth).Got?
    ensures SkipValue(data, pos, t, depth).pos >= pos
    decreases MAX_ARRAY_DEPTH - depth, 0
  {
    hide ReadString;
    hide ReadType;
    hide ReadNumber;
    if t.String? {
      StringRead(data, pos);
    } else if t.Array? {
      TypeRead(data, pos);
      var count := ReadBounded(data, pos + 4, MAX_ARRAY_ELEMENTS);
      NumberRead(data, pos + 4, 8);
      ElementsGrow(data, count.pos, ReadType(data, pos).value, depth + 1, count.value);
    }
  }

  lemma {:induction false} ElementsGrow(data: Bytes, pos: nat, elem: Type, depth: nat, count: nat)
    requires depth <= MAX_ARRAY_DEPTH && SkipElements(data, pos, elem, depth, count).Got?
    ensures SkipElements(data, pos, elem, depth, count).pos >= pos
    decreases MAX_ARRAY_DEPTH - depth, count + 1
  {
    hide SkipValue;
    if count > 0 {
      SkipGrows(data, pos, elem, depth);
      ElementsGrow(data, SkipValue(data, pos, elem, depth).pos, elem, depth, count - 1);
    }
  }

  // One more element in front.
  lemma {:induction false} ConsShifts(elem: Type, x: Value, xs: seq<Value>, i: nat)
    requires i <= |xs|
    ensures EncodeFrom(List(elem, [x] + xs), i + 1) == EncodeFrom(List(elem, xs), i)
    ensures Deepest(List(elem, [x] + xs), i + 1) == Deepest(List(elem, xs), i)
    decreases |xs| - i
  {
    hide Encode;
    hide Nesting;
    if i < |xs| {
      assert ([x] + xs)[i + 1] == xs[i];
      ConsShifts(elem, x, xs, i + 1);
    }
  }

  // A value that was skipped inside the file is an encoded one, within the limits.
  lemma {:induction false} SkippedIs(data: Bytes, pos: nat, t: Type, depth: nat) returns (v: Value)
    requires depth <= MAX_ARRAY_DEPTH && SkipValue(data, pos, t, depth).Got?
    requires SkipValue(data, pos, t, depth).pos <= |data|
    ensures TypeOf(v) == t && WellSized(v) && depth + Nesting(v) <= MAX_ARRAY_DEPTH
    ensures OccursAt(data, Encode(v), pos) && SkipValue(data, pos, t, depth).pos == pos + |Encode(v)|
    decreases MAX_ARRAY_DEPTH - depth, 0
  {
    hide ReadString;
    hide ReadType;
    hide ReadNumber;
    hide ToLe;
    hide EncodeString;
    if t.String? {
      StringRead(data, pos);
      v := Textual(ReadString(data, pos).value);
    } else if t.Array? {
      TypeRead(data, pos);
      NumberRead(data, pos + 4, 8);
      var elem, count := ReadType(data, pos).value, ReadBounded(data, pos + 4, MAX_ARRAY_ELEMENTS).value;
      var items := ElementsAre(data, pos + 12, elem, depth + 1, count);
      v := List(elem, items);
      OccursJoin(data, ToLe(Code(elem), 4), ToLe(count, 8), pos);
      OccursJoin(data, ToLe(Code(elem), 4) + ToLe(count, 8), EncodeFrom(v, 0), pos);
    } else {
      v := Fixed(t, data[pos..pos + FixedSize(t).value]);
    }
  }

  lemma {:induction false} ElementsAre(data: Bytes, pos: nat, elem: Type, depth: nat, count: nat)
    returns (items: seq<Value>)
    requires depth <= MAX_ARRAY_DEPTH && SkipElements(data, pos, elem, depth, count).Got?
    requires SkipElements(data, pos, elem, depth, count).pos <= |data|
    ensures |items| == count && forall i :: 0 <= i < count ==> WellSized(items[i]) && TypeOf(items[i]) == elem
    ensures depth + Deepest(List(elem, items), 0) <= MAX_ARRAY_DEPTH
    ensures var all := EncodeFrom(List(elem, items), 0);
            OccursAt(data, all, pos) && SkipElements(data, pos, elem, depth, count).pos == pos + |all|
    decreases MAX_ARRAY_DEPTH - depth, count + 1
  {
    hide SkipValue;
    hide WellSized;
    hide TypeOf;
    if count == 0 {
      items := [];
      ElementsGrow(data, pos, elem, depth, count);
    } else {
      var at := SkipValue(data, pos, elem, depth).pos;
      ElementsGrow(data, at, elem, depth, count - 1);
      var x := SkippedIs(data, pos, elem, depth);
      var xs := ElementsAre(data, at, elem, depth, count - 1);
      items := [x] + xs;
      hide Encode;
      hide Nesting;
      ConsShifts(elem, x, xs, 0);
      assert List(elem, items).items[0] == x;
      OccursJoin(data, Encode(x), EncodeFrom(List(elem, xs), 0), pos);
    }
  }

  /* ----- headers ----- */

  lemma {:induction false} KvsGrow(data: Bytes, pos: nat, count: nat)
    requires SkipKvs(data, pos, count).Got?
    ensures SkipKvs(data, pos, count).pos >= pos
    decreases count
  {
    hide SkipValue;
    hide ReadString;
    hide ReadType;
    if count > 0 {
      StringRead(data, pos);
      TypeRead(data, ReadString(data, pos).pos);
      var name := ReadName(data, pos);
      SkipGrows(data, name.pos, name.value.t, 0);
      KvsGrow(data, SkipValue(data, name.pos, name.value.t, 0).pos, count - 1);
    }
  }

  lemma {:induction false} KvsAre(data: Bytes, pos: nat, count: nat) returns (kvs: seq<Kv>)
    requires pos <= |data| && SkipKvs(data, pos, count).Got? && SkipKvs(data, pos, count).pos <= |data|
    ensures |kvs| == count && forall i :: 0 <= i < count ==> ValidKv(kvs[i])
    ensures OccursAt(data, PrintKvs(kvs), pos) && SkipKvs(data, pos, count).pos == pos + |PrintKvs(kvs)|
    decreases count
  {
    hide SkipValue;
    hide ReadString;
    hide ReadType;
    hide EncodeString;
    hide ToLe;
    hide Encode;
    hide WellSized;
    hide Nesting;
    hide Code;
    kvs := [];
    if count > 0 {
      StringRead(data, pos);
      TypeRead(data, ReadString(data, pos).pos);
      var name := ReadName(data, pos);
      var key, t := name.value.key, name.value.t;
      var at := SkipValue(data, name.pos, t, 0).pos;
      KvsGrow(data, at, count - 1);
      var v := SkippedIs(data, name.pos, t, 0);
      var rest := KvsAre(data, at, count - 1);
      var kv := Kv(key, v);
      kvs := [kv] + rest;
      assert kvs[1..] == rest;
      OccursJoin(data, EncodeString(key), ToLe(Code(t), 4), pos);
      OccursJoin(data, PrintKvName(kv), Encode(v), pos);
      OccursJoin(data, PrintKvName(kv) + Encode(v), PrintKvs(rest), pos);
    }
  }

  lemma {:induction false} DimsAre(data: Bytes, pos: nat, count: nat) returns (dims: seq<nat>)
    requires pos <= |data| && SkipDims(data, pos, count).Got?
    ensures |dims| == count && SkipDims(data, pos, count).pos == pos + |PrintDims(dims)| <= |data|
    ensures OccursAt(data, PrintDims(dims), pos)
    decreases count
  {
    hide ReadNumber;
    hide ToLe;
    dims := [];
    if count > 0 {
      NumberRead(data, pos, 8);
      var n := ReadNumber(data, pos, 8).value;
      var rest := DimsAre(data, pos + 8, count - 1);
      dims := [n] + rest;
      assert dims[1..] == rest;
      OccursJoin(data, ToLe(n, 8), PrintDims(rest), pos);
    }
  }

  lemma TensorIs(data: Bytes, pos: nat) returns (t: Tensor)
    requires ReadTensor(data, pos).Got?
    ensures ValidTensor(t) && ReadTensor(data, pos).value == TensorInfo(t.name, t.offset)
    ensures OccursAt(data, PrintTensor(t), pos) && ReadTensor(data, pos).pos == pos + |PrintTensor(t)| <= |data|
  {
    hide ReadString;
    hide ReadNumber;
    hide SkipDims;
    hide EncodeString;
    hide ToLe;
    hide PrintDims;
    hide Utf8.Encode;
    Widths();
    hide Pow256;
    StringRead(data, pos);
    var p := ReadString(data, pos).pos;
    NumberRead(data, p, 4);
    var n := ReadNumber(data, p, 4).value;
    var dims := DimsAre(data, p + 4, n);
    var r := SkipDims(data, p + 4, n).pos;
    NumberRead(data, r, 4);
    NumberRead(data, r + 4, 8);
    t := Tensor(ReadString(data, pos).value, dims, ReadNumber(data, r, 4).value, ReadNumber(data, r + 4, 8).value);
    var name, count, sizes := EncodeString(t.name), ToLe(n, 4), PrintDims(dims);
    var kind, offset := ToLe(t.kind, 4), ToLe(t.offset, 8);
    hide OccursAt;
    OccursJoin(data, name, count, pos);
    OccursJoin(data, name + count, sizes, pos);
    OccursJoin(data, name + count + sizes, kind, pos);
    OccursJoin(data, name + count + sizes + kind, offset, pos);
  }

  lemma {:induction false} TensorsAre(data: Bytes, pos: nat, count: nat, before: seq<TensorInfo>)
    returns (tensors: seq<Tensor>)
    requires pos <= |data| && ReadTensors(data, pos, count, before).Got?
    ensures |tensors| == count && forall i :: 0 <= i < count ==> ValidTensor(tensors[i])
    ensures OccursAt(data, PrintTensors(tensors), pos)
    ensures ReadTensors(data, pos, count, before).value == before + Infos(tensors)
    decreases count
  {
    hide ReadTensor;
    hide PrintTensor;
    hide ValidTensor;
    tensors := [];
    if count == 0 {
      assert before + Infos([]) == before;
    } else {
      var t := TensorIs(data, pos);
      var info := ReadTensor(data, pos).value;
      var rest := TensorsAre(data, pos + |PrintTensor(t)|, count - 1, before + [info]);
      tensors := [t] + rest;
      assert tensors[1..] == rest;
      assert before + Infos(tensors) == before + [info] + Infos(rest);
      OccursJoin(data, PrintTensor(t), PrintTensors(rest), pos);
    }
  }

  lemma StartIs(data: Bytes) returns (version: nat)
    requires ReadStart(data).Got?
    ensures var c := ReadStart(data).value;
            var start := MAGIC + ToLe(version, 4) + ToLe(c.tensors, 8) + ToLe(c.kvs, 8);
            && 2 <= version < U32_LIMIT && c.tensors <= MAX_TENSOR_COUNT && c.kvs <= MAX_KV_COUNT
            && OccursAt(data, start, 0) && ReadStart(data).pos == |start| <= |data|
  {
    hide ReadNumber;
    hide ToLe;
    Widths();
    hide Pow256;
    NumberRead(data, 4, 4);
    version := ReadNumber(data, 4, 4).value;
    NumberRead(data, 8, 8);
    NumberRead(data, 16, 8);
    var c := ReadStart(data).value;
    assert OccursAt(data, MAGIC, 0);
    hide OccursAt;
    OccursJoin(data, MAGIC, ToLe(version, 4), 0);
    OccursJoin(data, MAGIC + ToLe(version, 4), ToLe(c.tensors, 8), 0);
    OccursJoin(data, MAGIC + ToLe(version, 4) + ToLe(c.tensors, 8), ToLe(c.kvs, 8), 0);
  }

  // What scans with at least one tensor starts with a printed header of these tensors.
  lemma ScannedIs(data: Bytes) returns (h: Header)
    requires TensorNames(data).Some? && TensorNames(data).value != []
    ensures ValidHeader(h) && Print(h) <= data && TensorNames(data).value == NamesOf(Infos(h.tensors))
  {
    hide ReadStart;
    hide SkipKvs;
    hide ReadTensor;
    hide ToLe;
    hide PrintKvs;
    hide PrintTensors;
    hide ValidKv;
    hide ValidTensor;
    var version := StartIs(data);
    var c, p := ReadStart(data).value, ReadStart(data).pos;
    var q := SkipKvs(data, p, c.kvs).pos;
    var first := TensorIs(data, q);
    var kvs := KvsAre(data, p, c.kvs);
    var tensors := TensorsAre(data, q, c.tensors, []);
    h := Header(version, kvs, tensors);
    assert [] + Infos(tensors) == Infos(tensors);
    OccursJoin(data, PrintStart(h), PrintKvs(kvs), 0);
    OccursJoin(data, PrintStart(h) + PrintKvs(kvs), PrintTensors(tensors), 0);
    assert data[0..|Print(h)|] == Print(h);
  }

  // A file scans to some tensors exactly when it starts with a header of them, within the limits.
  lemma ScansExactly(data: Bytes, names: seq<string>)
    requires names != []
    ensures TensorNames(data) == Some(names) <==>
            exists h :: ValidHeader(h) && Print(h) <= data && names == NamesOf(Infos(h.tensors))
  {
    hide TensorNames;
    hide ValidHeader;
    hide Print;
    if TensorNames(data) == Some(names) {
      var h := ScannedIs(data);
    }
    if h :| ValidHeader(h) && Print(h) <= data && names == NamesOf(Infos(h.tensors)) {
      NamesRoundTrip(h, data[|Print(h)|..]);
      assert data == Print(h) + data[|Print(h)|..];
      assert NamesOf(Infos(h.tensors)) == seq(|h.tensors|, i requires 0 <= i < |h.tensors| => h.tensors[i].name);
    }
  }
}
