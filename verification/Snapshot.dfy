/** The binary snapshot of a store: its three layouts, and the fact that each of them
    determines the store. */
module Snapshot {
  import opened Bytes
  import opened Lz4Format
  import opened Lz4Words
  import opened Lz4Decode
  import opened Lz4Greedy
  import opened Lz4Compressor
  import opened Text
  import opened Commands

  const MAGIC: text := [84, 68, 66]
  const COMPRESSION_THRESHOLD := 10 * 1024 * 1024

  datatype Option<T> = None | Some(value: T)

  // ----- Sizes in eight bytes -----------------------------------------------

  function SizeBytes(n: nat, width: nat): (r: seq<byte>)
    ensures |r| == width
  {
    if width == 0 then [] else [n % 256] + SizeBytes(n / 256, width - 1)
  }

  lemma {:induction false} SizeRoundTrip(n: nat, width: nat)
    requires n < Pow2(8 * width)
    ensures LittleEndian(SizeBytes(n, width)) == n
  {
    if width > 0 {
      assert Pow2(8) == 256 by { Pow2Add(4, 4); Pow2Add(2, 2); }
      Pow2Add(8, 8 * (width - 1));
      SizeRoundTrip(n / 256, width - 1);
    }
  }

  lemma Pow2Of31()
    ensures Pow2(31) == 0x8000_0000
  {
    Pow2Add(4, 4);
    Pow2Add(2, 2);
    Pow2Add(8, 8);
    Pow2Add(8, 7);
    Pow2Add(16, 15);
  }

  /** Eight bytes hold every size that occurs. */
  lemma SmallSize(n: nat)
    requires n <= MAX_INPUT_SIZE
    ensures LittleEndian(SizeBytes(n, 8)) == n
  {
    Pow2Of31();
    Pow2Grows(31, 33);
    SizeRoundTrip(n, 8);
  }

  // ----- The uncompressed form ----------------------------------------------

  function Chunk(s: text): (r: seq<byte>)
    ensures |r| == 8 + |s|
  { SizeBytes(|s|, 8) + s }

  function Entries(order: seq<text>, s: Store): (r: seq<byte>)
    requires forall i :: 0 <= i < |order| ==> order[i] in s
  {
    if order == [] then []
    else Chunk(order[0]) + (Chunk(s[order[0]]) + Entries(order[1..], s))
  }

  function Serialize(order: seq<text>, s: Store): (r: seq<byte>)
    requires forall i :: 0 <= i < |order| ==> order[i] in s
  { MAGIC + (SizeBytes(|s|, 8) + Entries(order, s)) }

  /** Key and value bytes, the total the statistics report. */
  function TotalBytes(order: seq<text>, s: Store): (n: nat)
    requires forall i :: 0 <= i < |order| ==> order[i] in s
  {
    if order == [] then 0 else |order[0]| + |s[order[0]]| + TotalBytes(order[1..], s)
  }

  lemma {:induction false} EntriesLength(order: seq<text>, s: Store)
    requires forall i :: 0 <= i < |order| ==> order[i] in s
    ensures |Entries(order, s)| == 16 * |order| + TotalBytes(order, s)
  {
    if order != [] {
      EntriesLength(order[1..], s);
    }
  }

  lemma SerializedLength(order: seq<text>, s: Store)
    requires Enumerates(order, s)
    ensures |Serialize(order, s)| == 11 + 16 * |s| + TotalBytes(order, s)
  {
    EntriesLength(order, s);
    EnumerationLength(order, s);
  }

  /** The data stream is within the compressor's limit. */
  predicate SnapshotFits(order: seq<text>, s: Store)
    requires forall i :: 0 <= i < |order| ==> order[i] in s
  { 11 + 16 * |s| + TotalBytes(order, s) <= MAX_INPUT_SIZE }

  // ----- Reading it back ----------------------------------------------------

  /** A size and as many bytes, and what follows them. */
  function TakeChunk(r: seq<byte>): (o: Option<(text, seq<byte>)>)
    ensures o.Some? ==> |o.value.1| < |r|
  {
    if |r| < 8 then None
    else
      var n := LittleEndian(r[..8]);
      if |r| - 8 < n then None else Some((r[8..8 + n], r[8 + n..]))
  }

  function TakeEntries(r: seq<byte>, count: nat, s: Store): (o: Option<Store>)
    decreases count
  {
    if count == 0 then (if r == [] then Some(s) else None)
    else match TakeChunk(r)
      case None => None
      case Some((k, rest)) =>
        match TakeChunk(rest)
        case None => None
        case Some((v, rest')) => TakeEntries(rest', count - 1, s[k := v])
  }

  function Deserialize(r: seq<byte>): (o: Option<Store>) {
    if |r| < 11 || r[..3] != MAGIC then None
    else TakeEntries(r[11..], LittleEndian(r[3..11]), map[])
  }

  lemma TakeChunkBack(s: text, rest: seq<byte>)
    requires |s| <= MAX_INPUT_SIZE
    ensures TakeChunk(Chunk(s) + rest) == Some((s, rest))
  {
    var r := Chunk(s) + rest;
    SmallSize(|s|);
    assert r[..8] == SizeBytes(|s|, 8);
    assert r[8..8 + |s|] == s && r[8 + |s|..] == rest;
  }

  lemma {:induction false} TakeEntriesBack(order: seq<text>, s: Store, t: Store)
    requires forall i :: 0 <= i < |order| ==> order[i] in s
    requires |Entries(order, s)| <= MAX_INPUT_SIZE
    ensures TakeEntries(Entries(order, s), |order|, t) == Some(ApplyAll(t, Compacted(order, s)))
    decreases |order|
  {
    if order != [] {
      var k, v := order[0], s[order[0]];
      var rest := Entries(order[1..], s);
      TakeChunkBack(k, Chunk(v) + rest);
      TakeChunkBack(v, rest);
      TakeEntriesBack(order[1..], s, t[k := v]);
      assert Compacted(order, s)[1..] == Compacted(order[1..], s);
    }
  }

  /** The uncompressed form reads back as the store, whatever the order of enumeration. */
  lemma DeserializeUndoes(order: seq<text>, s: Store)
    requires Enumerates(order, s) && |Serialize(order, s)| <= MAX_INPUT_SIZE
    ensures Deserialize(Serialize(order, s)) == Some(s)
  {
    var r, n := Serialize(order, s), |s|;
    SerializedLength(order, s);
    EnumerationLength(order, s);
    SmallSize(n);
    assert r[..3] == MAGIC && r[3..11] == SizeBytes(n, 8) && r[11..] == Entries(order, s);
    TakeEntriesBack(order, s, map[]);
    CompactedRebuilds(order, s);
  }

  // ----- The three layouts --------------------------------------------------

  /** Plain below the threshold, else flag 1 and the compressed form if that is smaller,
      else flag 0 and the plain form. */
  function Layout(serial: seq<byte>, compressed: seq<byte>): (file: seq<byte>) {
    if |serial| <= COMPRESSION_THRESHOLD then serial
    else if |compressed| < |serial| then [1] + (SizeBytes(|serial|, 8) + compressed)
    else [0] + serial
  }

  /** What a snapshot file holds, told from its first byte. */
  function Recover(file: seq<byte>): (o: Option<Store>) {
    if file == [] then None
    else if file[0] == 0 then Deserialize(file[1..])
    else if file[0] == 1 then
      if |file| < 9 then None
      else match Decode(file[9..], LittleEndian(file[1..9]))
        case Ok(out, _) => Deserialize(out)
        case _ => None
    else Deserialize(file)
  }

  /** `compressed` is a block for `serial`. */
  predicate Compresses(compressed: seq<byte>, serial: seq<byte>) {
    Decode(compressed, |serial|) == Ok(serial, |compressed|)
  }

  /** `compressed` is what the compressor makes of `input`, byte by byte. */
  ghost predicate CompressedForm(compressed: seq<byte>, input: seq<byte>) {
    && |input| <= MAX_INPUT_SIZE && WellFormed(DefaultBlock(input))
    && compressed == Encode(DefaultBlock(input))
  }

  lemma RecoverUndoes(order: seq<text>, s: Store, compressed: seq<byte>)
    requires Enumerates(order, s) && |Serialize(order, s)| <= MAX_INPUT_SIZE
    requires |Serialize(order, s)| > COMPRESSION_THRESHOLD ==> Compresses(compressed, Serialize(order, s))
    ensures Recover(Layout(Serialize(order, s), compressed)) == Some(s)
  {
    var serial := Serialize(order, s);
    var file := Layout(serial, compressed);
    DeserializeUndoes(order, s);
    if |serial| <= COMPRESSION_THRESHOLD {
      assert file[0] == MAGIC[0];
    } else if |compressed| < |serial| {
      SmallSize(|serial|);
      assert file[1..9] == SizeBytes(|serial|, 8) && file[9..] == compressed;
    } else {
      assert file[1..] == serial;
    }
  }

  /** Two states that give the same file are the same, whatever layouts, enumeration orders
      and compressed forms were used. */
  lemma SnapshotDetermines(o1: seq<text>, s1: Store, c1: seq<byte>, o2: seq<text>, s2: Store, c2: seq<byte>)
    requires Enumerates(o1, s1) && |Serialize(o1, s1)| <= MAX_INPUT_SIZE
    requires Enumerates(o2, s2) && |Serialize(o2, s2)| <= MAX_INPUT_SIZE
    requires |Serialize(o1, s1)| > COMPRESSION_THRESHOLD ==> Compresses(c1, Serialize(o1, s1))
    requires |Serialize(o2, s2)| > COMPRESSION_THRESHOLD ==> Compresses(c2, Serialize(o2, s2))
    requires Layout(Serialize(o1, s1), c1) == Layout(Serialize(o2, s2), c2)
    ensures s1 == s2
  {
    RecoverUndoes(o1, s1, c1);
    RecoverUndoes(o2, s2, c2);
  }

  /** The file is longer than a flag and the data stream only where compression saved less
      than the eight bytes its size takes. */
  lemma LayoutLength(serial: seq<byte>, compressed: seq<byte>)
    ensures var n, c := |serial|, |compressed|;
            && |Layout(serial, compressed)| <= n + 8
            && (|Layout(serial, compressed)| > n + 1 <==> n > 10485760 && n - 8 < c < n)
  {
  }

  /** The form of a file, from the length n of the data stream and the compressed form. */
  predicate FileForm(file: seq<byte>, n: nat, compressed: seq<byte>) {
    if n <= 10485760 then |file| == n && n >= 3 && file[..3] == [84, 68, 66]
    else if |compressed| < n then
      |file| == 9 + |compressed| && file[0] == 1 && LittleEndian(file[1..9]) == n && file[9..] == compressed
    else |file| == n + 1 && n >= 3 && file[0] == 0 && file[1..4] == [84, 68, 66]
  }

  lemma LayoutForm(serial: seq<byte>, compressed: seq<byte>)
    requires 3 <= |serial| <= 0x7E000000 && serial[..3] == [84, 68, 66]
    ensures FileForm(Layout(serial, compressed), |serial|, compressed)
  {
    var n := |serial|;
    var file := Layout(serial, compressed);
    if n > 10485760 {
      if |compressed| < n {
        SmallSize(n);
        assert file[1..9] == SizeBytes(n, 8) && file[9..] == compressed;
      } else {
        assert file[1..4] == serial[..3];
      }
    }
  }

  /** The data stream for one entry, byte by byte: 3 letters, then how many entries, then each
      key and value after its size, all sizes in eight bytes, the lowest first. */
  lemma OneEntry(k: text, v: text)
    requires |k| == 258 && |v| == 1
    ensures Serialize([k], map[k := v])
            == [84, 68, 66] + [1, 0, 0, 0, 0, 0, 0, 0] + [2, 1, 0, 0, 0, 0, 0, 0] + k + [1, 0, 0, 0, 0, 0, 0, 0] + v
  {
    hide SizeBytes;
    var s, order := map[k := v], [k];
    SizesOf();
    assert |s| == 1 && order[1..] == [] && s[k] == v;
    assert Entries(order[1..], s) == [];
    assert Entries(order, s) == Chunk(k) + (Chunk(v) + []);
    Regrouped(MAGIC, SizeBytes(1, 8), SizeBytes(258, 8), k, SizeBytes(1, 8), v);
  }

  lemma SizesOf()
    ensures SizeBytes(1, 8) == [1, 0, 0, 0, 0, 0, 0, 0] && SizeBytes(258, 8) == [2, 1, 0, 0, 0, 0, 0, 0]
  {
    assert SizeBytes(0, 0) == [];
    assert SizeBytes(0, 2) == [0, 0];
    assert SizeBytes(0, 4) == [0, 0] + SizeBytes(0, 2);
    assert SizeBytes(0, 6) == [0, 0] + SizeBytes(0, 4);
    assert SizeBytes(1, 7) == [1] + SizeBytes(0, 6);
    assert SizeBytes(0, 7) == [0] + SizeBytes(0, 6);
  }

  lemma Regrouped(m: seq<byte>, n: seq<byte>, ks: seq<byte>, k: seq<byte>, vs: seq<byte>, v: seq<byte>)
    ensures m + (n + ((ks + k) + ((vs + v) + []))) == m + n + ks + k + vs + v
  {
  }

  // ----- Writing ------------------------------------------------------------

  /** The wrapper around the compressor. */
  method Compress(input: seq<byte>) returns (compressed: seq<byte>)
    requires |input| <= MAX_INPUT_SIZE
    ensures input == [] ==> compressed == []
    ensures input != [] ==> Compresses(compressed, input) && 0 < |compressed| <= CompressBound(|input|)
    ensures input != [] ==> CompressedForm(compressed, input)
  {
    hide DefaultBlock, WellFormed, Encode;
    if input == [] { return []; }
    var buffer := new byte[CompressBound(|input|)];
    var size := CompressDefault(input, buffer);
    compressed := buffer[..size];
  }

  /** The data stream of a state; the enumeration order is the container's. */
  method SerializeState(state: Store, order: seq<text>) returns (datastream: seq<byte>)
    requires Enumerates(order, state)
    ensures datastream == Serialize(order, state)
  {
    hide SizeBytes;
    datastream := MAGIC + SizeBytes(|state|, 8);
    var i := 0;
    assert order[0..] == order;
    AfterHeader(MAGIC, SizeBytes(|state|, 8), Entries(order, state));
    while i < |order|
      invariant i <= |order| && datastream + Entries(order[i..], state) == Serialize(order, state)
    {
      var key := order[i];
      var value := state[key];
      assert order[i..][1..] == order[i + 1..];
      AppendEntry(datastream, Chunk(key), Chunk(value), Entries(order[i + 1..], state));
      datastream := datastream + Chunk(key) + Chunk(value);
      i := i + 1;
    }
    assert order[i..] == [] && datastream + [] == datastream;
  }

  lemma AfterHeader(magic: seq<byte>, size: seq<byte>, rest: seq<byte>)
    ensures (magic + size) + rest == magic + (size + rest)
  {
  }

  lemma AppendEntry(d: seq<byte>, k: seq<byte>, v: seq<byte>, rest: seq<byte>)
    ensures d + (k + (v + rest)) == (d + k + v) + rest
  {
  }

  /** The file for a state: its form, and its exact bytes. */
  ghost predicate SnapshotOf(file: seq<byte>, order: seq<text>, state: Store)
    requires forall i :: 0 <= i < |order| ==> order[i] in state
  {
    var n := 11 + 16 * |state| + TotalBytes(order, state);
    if n <= 10485760 then file == Serialize(order, state) && FileForm(file, n, [])
    else exists compressed :: CompressedForm(compressed, Serialize(order, state)) && FileForm(file, n, compressed)
  }

  lemma SerializedMagic(order: seq<text>, s: Store)
    requires Enumerates(order, s)
    ensures |Serialize(order, s)| >= 3 && Serialize(order, s)[..3] == [84, 68, 66]
  {
  }

  /** The file written for a state holds exactly that state, in the form its size asks for. */
  method SnapshotFile(state: Store, order: seq<text>) returns (file: seq<byte>, ghost compressed: seq<byte>)
    requires Enumerates(order, state) && |Serialize(order, state)| <= MAX_INPUT_SIZE
    ensures file == Layout(Serialize(order, state), compressed)
    ensures |Serialize(order, state)| > COMPRESSION_THRESHOLD ==>
              Compresses(compressed, Serialize(order, state)) && CompressedForm(compressed, Serialize(order, state))
    ensures Recover(file) == Some(state)
    ensures FileForm(file, 11 + 16 * |state| + TotalBytes(order, state), compressed)
    ensures SnapshotOf(file, order, state)
  {
    hide Recover, CompressedForm, FileForm, Serialize, Compresses;
    var datastream := SerializeState(state, order);
    var block: seq<byte> := [];
    if |datastream| > COMPRESSION_THRESHOLD {
      block := Compress(datastream);
    }
    SerializedLength(order, state);
    SerializedMagic(order, state);
    RecoverUndoes(order, state, block);
    LayoutForm(datastream, block);
    file, compressed := Layout(datastream, block), block;
  }
}
