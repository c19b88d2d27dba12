/** The GGUF header scanner: a cursor that reads, bounds and skips. */
module Gguf {
  import opened Results
  import opened Wire
  import opened Text
  import Utf8

  const MAX_STRING_BYTES: nat := 1_000_000
  const MAX_ARRAY_ELEMENTS: nat := 1_000_000
  const MAX_ARRAY_DEPTH: nat := 64
  const MAX_TENSOR_DIMS: nat := 8
  const MAX_KV_COUNT: nat := 1_000_000
  const MAX_TENSOR_COUNT: nat := 1_000_000
  const MAGIC: Bytes := [71, 71, 85, 70]

  datatype Type =
    | Uint8 | Int8 | Uint16 | Int16 | Uint32 | Int32 | Float32 | Bool | String | Array | Uint64 | Int64 | Float64

  function FromCode(code: nat): Option<Type> {
    if code == 0 then Some(Uint8) else if code == 1 then Some(Int8)
    else if code == 2 then Some(Uint16) else if code == 3 then Some(Int16)
    else if code == 4 then Some(Uint32) else if code == 5 then Some(Int32)
    else if code == 6 then Some(Float32) else if code == 7 then Some(Bool)
    else if code == 8 then Some(String) else if code == 9 then Some(Array)
    else if code == 10 then Some(Uint64) else if code == 11 then Some(Int64)
    else if code == 12 then Some(Float64) else None
  }

  // None for the two types whose size is in the file.
  function FixedSize(t: Type): Option<nat> {
    match t
    case Uint8 | Int8 | Bool => Some(1)
    case Uint16 | Int16 => Some(2)
    case Uint32 | Int32 | Float32 => Some(4)
    case Uint64 | Int64 | Float64 => Some(8)
    case String | Array => None
  }

  /* ----- reads: a value or a failure, and where the cursor is then ----- */

  datatype Read<+T> = Got(value: T, pos: nat) | Failed(pos: nat)

  // A read that comes up short leaves the cursor at the end of the file.
  function ReadExact(data: Bytes, pos: nat, n: nat): (r: Read<Bytes>)
    ensures r.Got? ==> |r.value| == n && r.pos == pos + n
  {
    if n == 0 then Got([], pos)
    else if pos + n <= |data| then Got(data[pos..pos + n], pos + n)
    else Failed(if pos > |data| then pos else |data|)
  }

  function ReadNumber(data: Bytes, pos: nat, width: nat): Read<nat> {
    match ReadExact(data, pos, width)
    case Failed(at) => Failed(at)
    case Got(bytes, at) => Got(FromLe(bytes), at)
  }

  // A signed 64-bit count, neither negative nor above `max`.
  function ReadCount(data: Bytes, pos: nat, max: nat): Read<nat> {
    match ReadNumber(data, pos, 8)
    case Failed(at) => Failed(at)
    case Got(n, at) => if n >= U64_LIMIT / 2 || n > max then Failed(at) else Got(n, at)
  }

  function ReadBounded(data: Bytes, pos: nat, max: nat): Read<nat> {
    match ReadNumber(data, pos, 8)
    case Failed(at) => Failed(at)
    case Got(n, at) => if n > max then Failed(at) else Got(n, at)
  }

  function ReadString(data: Bytes, pos: nat): Read<string> {
    match ReadBounded(data, pos, MAX_STRING_BYTES)
    case Failed(at) => Failed(at)
    case Got(n, at) =>
      match ReadExact(data, at, n)
      case Failed(end) => Failed(end)
      case Got(bytes, end) =>
        match Utf8.Decode(bytes)
        case None => Failed(end)
        case Some(text) => Got(text, end)
  }

  function ReadType(data: Bytes, pos: nat): Read<Type> {
    match ReadNumber(data, pos, 4)
    case Failed(at) => Failed(at)
    case Got(code, at) => if FromCode(code).Some? then Got(FromCode(code).value, at) else Failed(at)
  }

  // Fixed-size values are sought over without looking whether they are there.
  function SkipValue(data: Bytes, pos: nat, t: Type, depth: nat): Read<()>
    requires depth <= MAX_ARRAY_DEPTH
    decreases MAX_ARRAY_DEPTH - depth, 0
  {
    match t
    case String =>
      (match ReadString(data, pos)
       case Failed(at) => Failed(at)
       case Got(_, at) => Got((), at))
    case Array =>
      if depth >= MAX_ARRAY_DEPTH then Failed(pos)
      else
        (match ReadType(data, pos)
         case Failed(at) => Failed(at)
         case Got(elem, at) =>
           match ReadBounded(data, at, MAX_ARRAY_ELEMENTS)
           case Failed(end) => Failed(end)
           case Got(count, start) => SkipElements(data, start, elem, depth + 1, count))
    case _ => Got((), pos + FixedSize(t).GetOr(0))
  }

  function SkipElements(data: Bytes, pos: nat, elem: Type, depth: nat, count: nat): Read<()>
    requires depth <= MAX_ARRAY_DEPTH
    decreases MAX_ARRAY_DEPTH - depth, count + 1
  {
    if count == 0 then Got((), pos)
    else
      match SkipValue(data, pos, elem, depth)
      case Failed(at) => Failed(at)
      case Got(_, at) => SkipElements(data, at, elem, depth, count - 1)
  }

  // An unsigned number from any of four types; another type is skipped.
  function ReadAsU32(data: Bytes, pos: nat, t: Type): Read<Option<nat>> {
    match t
    case Uint32 => Numeric(ReadNumber(data, pos, 4))
    case Int32 =>
      (match ReadNumber(data, pos, 4)
       case Failed(at) => Failed(at)
       case Got(n, at) => if n >= U32_LIMIT / 2 then Failed(at) else Got(Some(n), at))
    case Uint16 => Numeric(ReadNumber(data, pos, 2))
    case Uint8 => Numeric(ReadNumber(data, pos, 1))
    case _ =>
      (match SkipValue(data, pos, t, 0)
       case Failed(at) => Failed(at)
       case Got(_, at) => Got(None, at))
  }

  function Numeric(r: Read<nat>): Read<Option<nat>> {
    match r
    case Failed(at) => Failed(at)
    case Got(n, at) => Got(Some(n), at)
  }

  /* ----- whole headers ----- */

  datatype TensorInfo = TensorInfo(name: string, offset: nat)
  datatype Counts = Counts(tensors: nat, kvs: nat)

  function ReadStart(data: Bytes): Read<Counts> {
    match ReadExact(data, 0, 4)
    case Failed(at) => Failed(at)
    case Got(magic, p) =>
      if magic != MAGIC then Failed(p)
      else
        match ReadNumber(data, p, 4)
        case Failed(at) => Failed(at)
        case Got(version, q) =>
          if version < 2 then Failed(q)
          else
            match ReadCount(data, q, MAX_TENSOR_COUNT)
            case Failed(at) => Failed(at)
            case Got(tensors, r) =>
              match ReadCount(data, r, MAX_KV_COUNT)
              case Failed(at) => Failed(at)
              case Got(kvs, end) => Got(Counts(tensors, kvs), end)
  }

  datatype Name = Name(key: string, t: Type)

  function ReadName(data: Bytes, pos: nat): Read<Name> {
    match ReadString(data, pos)
    case Failed(at) => Failed(at)
    case Got(key, p) =>
      match ReadType(data, p)
      case Failed(at) => Failed(at)
      case Got(t, end) => Got(Name(key, t), end)
  }

  function SkipKvs(data: Bytes, pos: nat, count: nat): Read<()>
    decreases count
  {
    if count == 0 then Got((), pos)
    else
      match ReadName(data, pos)
      case Failed(at) => Failed(at)
      case Got(name, p) =>
        match SkipValue(data, p, name.t, 0)
        case Failed(at) => Failed(at)
        case Got(_, at) => SkipKvs(data, at, count - 1)
  }

  function SkipDims(data: Bytes, pos: nat, count: nat): Read<()>
    decreases count
  {
    if count == 0 then Got((), pos)
    else
      match ReadNumber(data, pos, 8)
      case Failed(at) => Failed(at)
      case Got(_, at) => SkipDims(data, at, count - 1)
  }

  function ReadTensor(data: Bytes, pos: nat): Read<TensorInfo> {
    match ReadString(data, pos)
    case Failed(at) => Failed(at)
    case Got(name, p) =>
      match ReadNumber(data, p, 4)
      case Failed(at) => Failed(at)
      case Got(dims, q) =>
        if dims > MAX_TENSOR_DIMS then Failed(q)
        else
          match SkipDims(data, q, dims)
          case Failed(at) => Failed(at)
          case Got(_, r) =>
            match ReadNumber(data, r, 4)
            case Failed(at) => Failed(at)
            case Got(_, s) =>
              match ReadNumber(data, s, 8)
              case Failed(at) => Failed(at)
              case Got(offset, end) => Got(TensorInfo(name, offset), end)
  }

  function ReadTensors(data: Bytes, pos: nat, count: nat, before: seq<TensorInfo>): Read<seq<TensorInfo>>
    decreases count
  {
    if count == 0 then Got(before, pos)
    else
      match ReadTensor(data, pos)
      case Failed(at) => Failed(at)
      case Got(tensor, at) => ReadTensors(data, at, count - 1, before + [tensor])
  }

  function NamesOf(tensors: seq<TensorInfo>): (names: seq<string>)
    ensures |names| == |tensors|
  {
    seq(|tensors|, i requires 0 <= i < |tensors| => tensors[i].name)
  }

  function TensorNames(data: Bytes): Option<seq<string>> {
    match ReadStart(data)
    case Failed(_) => None
    case Got(counts, p) =>
      match SkipKvs(data, p, counts.kvs)
      case Failed(_) => None
      case Got(_, q) =>
        match ReadTensors(data, q, counts.tensors, [])
        case Failed(_) => None
        case Got(tensors, _) => Some(NamesOf(tensors))
  }

  /* ----- the same, advancing the cursor of an open file ----- */

  // `Done` of a read on a file whose cursor has moved to `pos`.
  function Outcome<T>(r: Result<T, ()>, pos: nat): Read<T> {
    match r
    case Ok(value) => Got(value, pos)
    case Err(_) => Failed(pos)
  }

  class File {
    const data: Bytes
    var pos: nat

    constructor (data: Bytes)
      ensures this.data == data && pos == 0
    {
      this.data, pos := data, 0;
    }

    method Exact(n: nat) returns (r: Result<Bytes, ()>)
      modifies this
      ensures Outcome(r, pos) == ReadExact(data, old(pos), n)
    {
      if n == 0 {
        return Ok([]);
      }
      if pos + n <= |data| {
        r := Ok(data[pos..pos + n]);
        pos := pos + n;
      } else {
        r := Err(());
        pos := if pos > |data| then pos else |data|;
      }
    }

    method Number(width: nat) returns (r: Result<nat, ()>)
      modifies this
      ensures Outcome(r, pos) == ReadNumber(data, old(pos), width)
    {
      var bytes := Exact(width);
      r := if bytes.Ok? then Ok(FromLe(bytes.value)) else Err(());
    }

    method HeaderCount(max: nat) returns (r: Result<nat, ()>)
      modifies this
      ensures Outcome(r, pos) == ReadCount(data, old(pos), max)
    {
      r := Number(8);
      if r.Ok? && (r.value >= U64_LIMIT / 2 || r.value > max) {
        r := Err(());
      }
    }

    method BoundedLen(max: nat) returns (r: Result<nat, ()>)
      modifies this
      ensures Outcome(r, pos) == ReadBounded(data, old(pos), max)
    {
      r := Number(8);
      if r.Ok? && r.value > max {
        r := Err(());
      }
    }

    method GgufString() returns (r: Result<string, ()>)
      modifies this
      ensures Outcome(r, pos) == ReadString(data, old(pos))
    {
      var n := BoundedLen(MAX_STRING_BYTES);
      if n.Err? {
        return Err(());
      }
      var bytes := Exact(n.value);
      if bytes.Err? {
        return Err(());
      }
      var text := Utf8.Decode(bytes.value);
      r := if text.Some? then Ok(text.value) else Err(());
    }

    method GgufType() returns (r: Result<Type, ()>)
      modifies this
      ensures Outcome(r, pos) == ReadType(data, old(pos))
    {
      var code := Number(4);
      if code.Err? {
        return Err(());
      }
      var t := FromCode(code.value);
      r := if t.Some? then Ok(t.value) else Err(());
    }

    // The recursion ends: an array costs a level of depth, an element one of a bounded count.
    method SkipGgufValue(t: Type, depth: nat) returns (r: Result<(), ()>)
      requires depth <= MAX_ARRAY_DEPTH
      modifies this
      ensures Outcome(r, pos) == SkipValue(data, old(pos), t, depth)
      decreases MAX_ARRAY_DEPTH - depth
    {
      hide ReadString;
      hide ReadType;
      hide ReadBounded;
      hide FixedSize;
      if t.String? {
        var text := GgufString();
        return if text.Ok? then Ok(()) else Err(());
      }
      if !t.Array? {
        pos := pos + FixedSize(t).GetOr(0);
        return Ok(());
      }
      if depth >= MAX_ARRAY_DEPTH {
        return Err(());
      }
      var elem := GgufType();
      if elem.Err? {
        return Err(());
      }
      var count := BoundedLen(MAX_ARRAY_ELEMENTS);
      if count.Err? {
        return Err(());
      }
      ghost var all := SkipElements(data, pos, elem.value, depth + 1, count.value);
      for i := 0 to count.value
        invariant SkipElements(data, pos, elem.value, depth + 1, count.value - i) == all
      {
        var skipped := SkipGgufValue(elem.value, depth + 1);
        if skipped.Err? {
          return Err(());
        }
      }
      r := Ok(());
    }

    method Start() returns (r: Result<Counts, ()>)
      requires pos == 0
      modifies this
      ensures Outcome(r, pos) == ReadStart(data)
    {
      var magic := Exact(4);
      if magic.Err? || magic.value != MAGIC {
        return Err(());
      }
      var version := Number(4);
      if version.Err? || version.value < 2 {
        return Err(());
      }
      var tensors := HeaderCount(MAX_TENSOR_COUNT);
      if tensors.Err? {
        return Err(());
      }
      var kvs := HeaderCount(MAX_KV_COUNT);
      if kvs.Err? {
        return Err(());
      }
      r := Ok(Counts(tensors.value, kvs.value));
    }

    method KvName() returns (r: Result<Name, ()>)
      modifies this
      ensures Outcome(r, pos) == ReadName(data, old(pos))
    {
      var key := GgufString();
      if key.Err? {
        return Err(());
      }
      var t := GgufType();
      if t.Err? {
        return Err(());
      }
      r := Ok(Name(key.value, t.value));
    }

    method AsU32(t: Type) returns (r: Result<Option<nat>, ()>)
      modifies this
      ensures Outcome(r, pos) == ReadAsU32(data, old(pos), t)
    {
      hide SkipValue;
      if t.Uint32? || t.Int32? || t.Uint16? || t.Uint8? {
        var n := Number(if t.Uint16? then 2 else if t.Uint8? then 1 else 4);
        if n.Err? || (t.Int32? && n.value >= U32_LIMIT / 2) {
          return Err(());
        }
        return Ok(Some(n.value));
      }
      var skipped := SkipGgufValue(t, 0);
      r := if skipped.Ok? then Ok(None) else Err(());
    }

    method Tensor() returns (r: Result<TensorInfo, ()>)
      modifies this
      ensures Outcome(r, pos) == ReadTensor(data, old(pos))
    {
      hide ReadString;
      hide ReadNumber;
      var name := GgufString();
      if name.Err? {
        return Err(());
      }
      var dims := Number(4);
      if dims.Err? || dims.value > MAX_TENSOR_DIMS {
        return Err(());
      }
      ghost var all := SkipDims(data, pos, dims.value);
      for i := 0 to dims.value
        invariant SkipDims(data, pos, dims.value - i) == all
      {
        var dim := Number(8);
        if dim.Err? {
          return Err(());
        }
      }
      var kind := Number(4);
      if kind.Err? {
        return Err(());
      }
      var offset := Number(8);
      if offset.Err? {
        return Err(());
      }
      r := Ok(TensorInfo(name.value, offset.value));
    }

    method TensorInfos(count: nat) returns (r: Result<seq<TensorInfo>, ()>)
      modifies this
      ensures Outcome(r, pos) == ReadTensors(data, old(pos), count, [])
    {
      hide ReadTensor;
      var tensors: seq<TensorInfo> := [];
      for i := 0 to count
        invariant ReadTensors(data, pos, count - i, tensors) == ReadTensors(data, old(pos), count, [])
      {
        var tensor := Tensor();
        if tensor.Err? {
          return Err(());
        }
        tensors := tensors + [tensor.value];
      }
      r := Ok(tensors);
    }
  }

  method ScanGgufTensorNames(data: Bytes) returns (names: Option<seq<string>>)
    ensures names == TensorNames(data)
  {
    hide ReadStart;
    hide ReadName;
    hide SkipValue;
    hide ReadTensors;
    var f := new File(data);
    var counts := f.Start();
    if counts.Err? {
      return None;
    }
    ghost var all := SkipKvs(data, f.pos, counts.value.kvs);
    for i := 0 to counts.value.kvs
      invariant f.data == data
      invariant SkipKvs(data, f.pos, counts.value.kvs - i) == all
    {
      var name := f.KvName();
      if name.Err? {
        return None;
      }
      var skipped := f.SkipGgufValue(name.value.t, 0);
      if skipped.Err? {
        return None;
      }
    }
    var tensors := f.TensorInfos(counts.value.tensors);
    names := if tensors.Ok? then Some(NamesOf(tensors.value)) else None;
  }
}
