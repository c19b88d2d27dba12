/** Printed GGUF headers scan back: every skip lands at the end of the value it skips. */
module GgufRoundTrip {
  import opened Results
  import opened Wire
  import opened Text
  import opened Gguf
  import Utf8

  datatype Value =
    | Fixed(t: Type, bytes: Bytes)
    | Textual(text: string)
    | List(elem: Type, items: seq<Value>)

  function TypeOf(v: Value): Type {
    match v
    case Fixed(t, _) => t
    case Textual(_) => String
    case List(_, _) => Array
  }

  function Code(t: Type): (code: nat)
    ensures FromCode(code) == Some(t) && code < U32_LIMIT
  {
    match t
    case Uint8 => 0 case Int8 => 1 case Uint16 => 2 case Int16 => 3 case Uint32 => 4 case Int32 => 5
    case Float32 => 6 case Bool => 7 case String => 8 case Array => 9 case Uint64 => 10 case Int64 => 11
    case Float64 => 12
  }

  // Within the limits on strings and counts; the depth is left to `Nesting`.
  predicate WellSized(v: Value) {
    match v
    case Fixed(t, bytes) => FixedSize(t) == Some(|bytes|)
    case Textual(text) => |Utf8.Encode(text)| <= MAX_STRING_BYTES
    case List(elem, items) =>
      |items| <= MAX_ARRAY_ELEMENTS && forall i :: 0 <= i < |items| ==> WellSized(items[i]) && TypeOf(items[i]) == elem
  }

  // Levels of arrays down the deepest chain of elements.
  function Nesting(v: Value): nat
    decreases v, 1, 0
  {
    match v
    case List(_, items) => 1 + Deepest(v, 0)
    case _ => 0
  }

  function Deepest(v: Value, i: nat): nat
    requires v.List? && i <= |v.items|
    decreases v, 0, |v.items| - i
  {
    if i == |v.items| then 0
    else
      var first, rest := Nesting(v.items[i]), Deepest(v, i + 1);
      if first > rest then first else rest
  }

  function EncodeString(s: string): Bytes {
    ToLe(|Utf8.Encode(s)|, 8) + Utf8.Encode(s)
  }

  function Encode(v: Value): Bytes
    decreases v, 1, 0
  {
    match v
    case Fixed(_, bytes) => bytes
    case Textual(text) => EncodeString(text)
    case List(elem, items) => ToLe(Code(elem), 4) + ToLe(|items|, 8) + EncodeFrom(v, 0)
  }

  function EncodeFrom(v: Value, i: nat): Bytes
    requires v.List? && i <= |v.items|
    decreases v, 0, |v.items| - i
  {
    if i == |v.items| then [] else Encode(v.items[i]) + EncodeFrom(v, i + 1)
  }

  /* ----- single reads ----- */

  lemma ReadsBytes(data: Bytes, pos: nat, bytes: Bytes)
    requires OccursAt(data, bytes, pos)
    ensures ReadExact(data, pos, |bytes|) == Got(bytes, pos + |bytes|)
  {}

  lemma ReadsNumber(data: Bytes, pos: nat, n: nat, width: nat)
    requires n < Pow256(width) && OccursAt(data, ToLe(n, width), pos)
    ensures ReadNumber(data, pos, width) == Got(n, pos + width)
  {
    hide ToLe;
    hide FromLe;
    ReadsBytes(data, pos, ToLe(n, width));
    LeRoundTrip(n, width);
  }

  lemma ReadsString(data: Bytes, pos: nat, s: string)
    requires |Utf8.Encode(s)| <= MAX_STRING_BYTES && OccursAt(data, EncodeString(s), pos)
    ensures ReadString(data, pos) == Got(s, pos + |EncodeString(s)|)
  {
    hide Utf8.Encode;
    hide Utf8.Decode;
    hide ReadNumber;
    hide ToLe;
    var bytes := Utf8.Encode(s);
    OccursJoin(data, ToLe(|bytes|, 8), bytes, pos);
    Widths();
    hide Pow256;
    ReadsNumber(data, pos, |bytes|, 8);
    ReadsBytes(data, pos + 8, bytes);
    Utf8.RoundTrip(s);
  }

  lemma ReadsType(data: Bytes, pos: nat, t: Type)
    requires OccursAt(data, ToLe(Code(t), 4), pos)
    ensures ReadType(data, pos) == Got(t, pos + 4)
  {
    hide ToLe;
    hide ReadNumber;
    Widths();
    hide Pow256;
    ReadsNumber(data, pos, Code(t), 4);
  }

  /* ----- skipping ----- */

  // Skipping an encoded value succeeds exactly when its arrays nest within the limit, and then
  // lands at its end, whatever follows.
  lemma {:induction false} SkipLands(data: Bytes, pos: nat, v: Value, depth: nat)
    requires WellSized(v) && depth <= MAX_ARRAY_DEPTH && OccursAt(data, Encode(v), pos)
    ensures if depth + Nesting(v) <= MAX_ARRAY_DEPTH
            then SkipValue(data, pos, TypeOf(v), depth) == Got((), pos + |Encode(v)|)
            else SkipValue(data, pos, TypeOf(v), depth).Failed?
    decreases v, 1, 0
  {
    hide ReadString;
    hide ReadType;
    hide ReadBounded;
    hide ToLe;
    hide EncodeString;
    match v {
      case Fixed(_, _) =>
      case Textual(text) => ReadsString(data, pos, text);
      case List(elem, items) =>
        if depth < MAX_ARRAY_DEPTH {
          ListStart(data, pos, v);
          ElementsLand(data, pos + 12, v, 0, depth + 1);
        }
    }
  }

  lemma ListStart(data: Bytes, pos: nat, v: Value)
    requires v.List? && WellSized(v) && OccursAt(data, Encode(v), pos)
    ensures ReadType(data, pos) == Got(v.elem, pos + 4)
    ensures ReadBounded(data, pos + 4, MAX_ARRAY_ELEMENTS) == Got(|v.items|, pos + 12)
    ensures OccursAt(data, EncodeFrom(v, 0), pos + 12) && |Encode(v)| == 12 + |EncodeFrom(v, 0)|
  {
    hide ReadType;
    hide ReadNumber;
    hide ToLe;
    hide EncodeFrom;
    var t, n := ToLe(Code(v.elem), 4), ToLe(|v.items|, 8);
    OccursJoin(data, t + n, EncodeFrom(v, 0), pos);
    OccursJoin(data, t, n, pos);
    ReadsType(data, pos, v.elem);
    Widths();
    hide Pow256;
    ReadsNumber(data, pos + 4, |v.items|, 8);
  }

  lemma {:induction false} ElementsLand(data: Bytes, pos: nat, v: Value, i: nat, depth: nat)
    requires v.List? && WellSized(v) && i <= |v.items| && depth <= MAX_ARRAY_DEPTH
    requires OccursAt(data, EncodeFrom(v, i), pos)
    ensures if depth + Deepest(v, i) <= MAX_ARRAY_DEPTH
            then SkipElements(data, pos, v.elem, depth, |v.items| - i) == Got((), pos + |EncodeFrom(v, i)|)
            else SkipElements(data, pos, v.elem, depth, |v.items| - i).Failed?
    decreases v, 0, |v.items| - i
  {
    hide SkipValue;
    hide Nesting;
    hide Encode;
    if i < |v.items| {
      var item := v.items[i];
      OccursJoin(data, Encode(item), EncodeFrom(v, i + 1), pos);
      SkipLands(data, pos, item, depth);
      ElementsLand(data, pos + |Encode(item)|, v, i + 1, depth);
    }
  }

  /* ----- headers ----- */

  datatype Kv = Kv(key: string, value: Value)
  datatype Tensor = Tensor(name: string, dims: seq<nat>, kind: nat, offset: nat)
  datatype Header = Header(version: nat, kvs: seq<Kv>, tensors: seq<Tensor>)

  predicate ValidKv(kv: Kv) {
    |Utf8.Encode(kv.key)| <= MAX_STRING_BYTES && WellSized(kv.value) && Nesting(kv.value) <= MAX_ARRAY_DEPTH
  }

  predicate ValidTensor(t: Tensor) {
    && |Utf8.Encode(t.name)| <= MAX_STRING_BYTES && |t.dims| <= MAX_TENSOR_DIMS
    && t.kind < U32_LIMIT && t.offset < U64_LIMIT
  }

  predicate ValidHeader(h: Header) {
    && 2 <= h.version < U32_LIMIT && |h.kvs| <= MAX_KV_COUNT && |h.tensors| <= MAX_TENSOR_COUNT
    && (forall i :: 0 <= i < |h.kvs| ==> ValidKv(h.kvs[i]))
    && (forall i :: 0 <= i < |h.tensors| ==> ValidTensor(h.tensors[i]))
  }

  function PrintKvName(kv: Kv): Bytes {
    EncodeString(kv.key) + ToLe(Code(TypeOf(kv.value)), 4)
  }

  function PrintKvs(kvs: seq<Kv>): Bytes {
    if kvs == [] then [] else PrintKvName(kvs[0]) + Encode(kvs[0].value) + PrintKvs(kvs[1..])
  }

  function PrintDims(dims: seq<nat>): Bytes {
    if dims == [] then [] else ToLe(dims[0], 8) + PrintDims(dims[1..])
  }

  function PrintTensor(t: Tensor): Bytes {
    EncodeString(t.name) + ToLe(|t.dims|, 4) + PrintDims(t.dims) + ToLe(t.kind, 4) + ToLe(t.offset, 8)
  }

  function PrintTensors(tensors: seq<Tensor>): Bytes {
    if tensors == [] then [] else PrintTensor(tensors[0]) + PrintTensors(tensors[1..])
  }

  function PrintStart(h: Header): Bytes {
    MAGIC + ToLe(h.version, 4) + ToLe(|h.tensors|, 8) + ToLe(|h.kvs|, 8)
  }

  function Print(h: Header): Bytes {
    PrintStart(h) + PrintKvs(h.kvs) + PrintTensors(h.tensors)
  }

  lemma StartReads(data: Bytes, h: Header)
    requires ValidHeader(h) && OccursAt(data, PrintStart(h), 0)
    ensures ReadStart(data) == Got(Counts(|h.tensors|, |h.kvs|), |PrintStart(h)|)
  {
    hide ReadNumber;
    hide ReadExact;
    hide ToLe;
    var v, t, k := ToLe(h.version, 4), ToLe(|h.tensors|, 8), ToLe(|h.kvs|, 8);
    OccursJoin(data, MAGIC + v + t, k, 0);
    OccursJoin(data, MAGIC + v, t, 0);
    OccursJoin(data, MAGIC, v, 0);
    Widths();
    hide Pow256;
    ReadsBytes(data, 0, MAGIC);
    ReadsNumber(data, 4, h.version, 4);
    ReadsNumber(data, 8, |h.tensors|, 8);
    ReadsNumber(data, 16, |h.kvs|, 8);
  }

  lemma NameReads(data: Bytes, pos: nat, kv: Kv)
    requires ValidKv(kv) && OccursAt(data, PrintKvName(kv), pos)
    ensures ReadName(data, pos) == Got(Name(kv.key, TypeOf(kv.value)), pos + |PrintKvName(kv)|)
  {
    hide ReadString;
    hide ReadType;
    hide EncodeString;
    hide ToLe;
    hide TypeOf;
    hide Code;
    OccursJoin(data, EncodeString(kv.key), ToLe(Code(TypeOf(kv.value)), 4), pos);
    ReadsString(data, pos, kv.key);
    ReadsType(data, pos + |EncodeString(kv.key)|, TypeOf(kv.value));
  }

  lemma {:induction false} KvsSkip(data: Bytes, pos: nat, kvs: seq<Kv>)
    requires forall i :: 0 <= i < |kvs| ==> ValidKv(kvs[i])
    requires OccursAt(data, PrintKvs(kvs), pos)
    ensures SkipKvs(data, pos, |kvs|) == Got((), pos + |PrintKvs(kvs)|)
    decreases |kvs|
  {
    hide ReadName;
    hide SkipValue;
    hide Encode;
    hide PrintKvName;
    hide Nesting;
    if kvs != [] {
      var name, value := PrintKvName(kvs[0]), Encode(kvs[0].value);
      OccursJoin(data, name + value, PrintKvs(kvs[1..]), pos);
      OccursJoin(data, name, value, pos);
      NameReads(data, pos, kvs[0]);
      SkipLands(data, pos + |name|, kvs[0].value, 0);
      KvsSkip(data, pos + |name| + |value|, kvs[1..]);
    }
  }

  lemma {:induction false} DimsSkip(data: Bytes, pos: nat, dims: seq<nat>)
    requires OccursAt(data, PrintDims(dims), pos)
    ensures SkipDims(data, pos, |dims|) == Got((), pos + |PrintDims(dims)|)
    decreases |dims|
  {
    hide ToLe;
    hide FromLe;
    if dims != [] {
      OccursJoin(data, ToLe(dims[0], 8), PrintDims(dims[1..]), pos);
      ReadsBytes(data, pos, ToLe(dims[0], 8));
      DimsSkip(data, pos + 8, dims[1..]);
    }
  }

  lemma TensorReads(data: Bytes, pos: nat, t: Tensor)
    requires ValidTensor(t) && OccursAt(data, PrintTensor(t), pos)
    ensures ReadTensor(data, pos) == Got(TensorInfo(t.name, t.offset), pos + |PrintTensor(t)|)
  {
    hide ReadString;
    hide ReadNumber;
    hide EncodeString;
    hide ToLe;
    hide SkipDims;
    hide PrintDims;
    hide Utf8.Encode;
    var name, n, dims := EncodeString(t.name), ToLe(|t.dims|, 4), PrintDims(t.dims);
    var kind, offset := ToLe(t.kind, 4), ToLe(t.offset, 8);
    OccursJoin(data, name + n + dims + kind, offset, pos);
    OccursJoin(data, name + n + dims, kind, pos);
    OccursJoin(data, name + n, dims, pos);
    OccursJoin(data, name, n, pos);
    Widths();
    hide Pow256;
    ReadsString(data, pos, t.name);
    ReadsNumber(data, pos + |name|, |t.dims|, 4);
    DimsSkip(data, pos + |name| + 4, t.dims);
    ReadsNumber(data, pos + |name| + 4 + |dims|, t.kind, 4);
    ReadsNumber(data, pos + |name| + 8 + |dims|, t.offset, 8);
  }

  function Infos(tensors: seq<Tensor>): seq<TensorInfo> {
    seq(|tensors|, i requires 0 <= i < |tensors| => TensorInfo(tensors[i].name, tensors[i].offset))
  }

  lemma {:induction false} TensorsRead(data: Bytes, pos: nat, tensors: seq<Tensor>, before: seq<TensorInfo>)
    requires forall i :: 0 <= i < |tensors| ==> ValidTensor(tensors[i])
    requires OccursAt(data, PrintTensors(tensors), pos)
    ensures ReadTensors(data, pos, |tensors|, before) == Got(before + Infos(tensors), pos + |PrintTensors(tensors)|)
    decreases |tensors|
  {
    hide ReadTensor;
    hide PrintTensor;
    hide ValidTensor;
    if tensors == [] {
      assert before + Infos(tensors) == before;
    } else {
      OccursJoin(data, PrintTensor(tensors[0]), PrintTensors(tensors[1..]), pos);
      TensorReads(data, pos, tensors[0]);
      var first := TensorInfo(tensors[0].name, tensors[0].offset);
      TensorsRead(data, pos + |PrintTensor(tensors[0])|, tensors[1..], before + [first]);
      assert before + [first] + Infos(tensors[1..]) == before + Infos(tensors);
    }
  }

  lemma HeaderParts(data: Bytes, h: Header)
    requires Print(h) <= data
    ensures OccursAt(data, PrintStart(h), 0)
    ensures OccursAt(data, PrintKvs(h.kvs), |PrintStart(h)|)
    ensures OccursAt(data, PrintTensors(h.tensors), |PrintStart(h)| + |PrintKvs(h.kvs)|)
  {
    hide PrintStart;
    hide PrintKvs;
    hide PrintTensors;
    assert OccursAt(data, Print(h), 0);
    OccursJoin(data, PrintStart(h) + PrintKvs(h.kvs), PrintTensors(h.tensors), 0);
    OccursJoin(data, PrintStart(h), PrintKvs(h.kvs), 0);
  }

  // Scanning a printed header returns every tensor name in order, whatever follows it.
  lemma NamesRoundTrip(h: Header, rest: Bytes)
    requires ValidHeader(h)
    ensures TensorNames(Print(h) + rest) == Some(seq(|h.tensors|, i requires 0 <= i < |h.tensors| => h.tensors[i].name))
  {
    hide ReadStart;
    hide SkipKvs;
    hide ReadTensors;
    hide Print;
    hide PrintStart;
    hide PrintKvs;
    hide PrintTensors;
    hide ValidKv;
    hide ValidTensor;
    var data := Print(h) + rest;
    HeaderParts(data, h);
    StartReads(data, h);
    KvsSkip(data, |PrintStart(h)|, h.kvs);
    TensorsRead(data, |PrintStart(h)| + |PrintKvs(h.kvs)|, h.tensors, []);
    assert [] + Infos(h.tensors) == Infos(h.tensors);
    assert NamesOf(Infos(h.tensors)) == seq(|h.tensors|, i requires 0 <= i < |h.tensors| => h.tensors[i].name);
  }
}
