/** The byte-by-byte decoder as a function on every byte string, one member for each point
    the optimised decoder can jump to, and the length fields it reads. */
module Lz4Decode {
  import opened Bytes
  import opened Lz4Format

  /** A decoding attempt. `Invalid` is the code's -1. The last two are inputs the code
      presumes away: reading past the block, and copying a byte from itself. */
  datatype Decoded = Ok(out: seq<byte>, used: nat) | Invalid | ReadsPast | ZeroOffset

  /** The block is accepted as a whole. */
  predicate Accepted(src: seq<byte>, d: Decoded) {
    d.Ok? && d.used == |src|
  }

  datatype Length = Length(value: nat, next: nat) | OffEnd

  function LongLength(src: seq<byte>, ip: nat): (r: Length)
    ensures r.Length? ==> ip < r.next <= |src|
    decreases |src| - ip
  {
    if ip >= |src| then OffEnd
    else if src[ip] != 255 then Length(src[ip], ip + 1)
    else match LongLength(src, ip + 1)
      case Length(v, next) => Length(255 + v, next)
      case OffEnd => OffEnd
  }

  /** A half-token with its extension bytes, if it has any. */
  function ReadLength(src: seq<byte>, ip: nat, nibble: nat): (r: Length)
    requires ip <= |src|
    ensures r.Length? ==> ip <= r.next <= |src| && r.value >= nibble
  {
    if nibble != 15 then Length(nibble, ip)
    else match LongLength(src, ip)
      case Length(v, next) => Length(15 + v, next)
      case OffEnd => OffEnd
  }

  /** Decode from a token on, with `out` already produced and n bytes expected. */
  function DecodeToken(src: seq<byte>, ip: nat, out: seq<byte>, n: nat): (r: Decoded)
    requires ip <= |src| && |out| <= n
    decreases |src| - ip, 0
  {
    if ip == |src| then ReadsPast
    else match ReadLength(src, ip + 1, src[ip] / 16)
      case OffEnd => ReadsPast
      case Length(ll, next) => DecodeLiterals(src, next, src[ip] % 16, ll, out, n)
  }

  function DecodeLiterals(src: seq<byte>, ip: nat, low: nat, ll: nat, out: seq<byte>, n: nat): (r: Decoded)
    requires ip <= |src| && |out| <= n
    decreases |src| - ip, 4
  {
    if n - |out| < ll then Invalid
    else if |src| - ip < ll then ReadsPast
    else
      var out' := out + src[ip..ip + ll];
      if n - |out'| < MF_LIMIT then
        if |out'| == n then Ok(out', ip + ll) else Invalid
      else DecodeOffset(src, ip + ll, low, out', n)
  }

  function DecodeOffset(src: seq<byte>, ip: nat, low: nat, out: seq<byte>, n: nat): (r: Decoded)
    requires ip <= |src| && |out| <= n
    decreases |src| - ip, 3
  {
    if ip + 2 > |src| then ReadsPast
    else DecodeMatchLength(src, ip + 2, low, src[ip] as int + 256 * src[ip + 1] as int, out, n)
  }

  function DecodeMatchLength(src: seq<byte>, ip: nat, low: nat, offset: nat, out: seq<byte>, n: nat): (r: Decoded)
    requires ip <= |src| && |out| <= n
    decreases |src| - ip, 2
  {
    match ReadLength(src, ip, low)
    case OffEnd => ReadsPast
    case Length(ml, next) => DecodeCopy(src, next, offset, ml + MIN_MATCH, out, n)
  }

  function DecodeCopy(src: seq<byte>, ip: nat, offset: nat, ml: nat, out: seq<byte>, n: nat): (r: Decoded)
    requires ip <= |src| && |out| <= n
    decreases |src| - ip, 1
  {
    if n - |out| < ml || offset > |out| then Invalid
    else if offset == 0 then ZeroOffset
    else
      var out' := CopyMatch(out, offset, ml);
      if n - |out'| < LAST_LITERALS then Invalid else DecodeToken(src, ip, out', n)
  }

  /** What a byte string decodes to when n bytes are expected. */
  function Decode(src: seq<byte>, n: nat): (r: Decoded) { DecodeToken(src, 0, [], n) }

  // ----- Length fields undo each other --------------------------------------

  lemma {:induction false} LongLengthIff(src: seq<byte>, ip: nat, n: nat)
    requires ip <= |src|
    ensures LongLength(src, ip) == Length(n, ip + |LengthBytes(n)|)
            <==> ip + |LengthBytes(n)| <= |src| && src[ip..ip + |LengthBytes(n)|] == LengthBytes(n)
    ensures LongLength(src, ip).Length? && LongLength(src, ip).value == n
            ==> LongLength(src, ip).next == ip + |LengthBytes(n)|
    decreases |src| - ip
  {
    if ip < |src| {
      var w := LengthBytes(n);
      if n >= 255 {
        LongLengthIff(src, ip + 1, n - 255);
        var t := LengthBytes(n - 255);
        if ip + |w| <= |src| {
          assert src[ip..ip + |w|] == [src[ip]] + src[ip + 1..ip + |w|];
          assert w[1..] == t;
        }
      }
    }
  }

  /** Reading undoes writing for every length, and stops right after the field. */
  lemma ReadLengthIff(src: seq<byte>, ip: nat, n: nat)
    requires ip <= |src|
    ensures ReadLength(src, ip, Nibble(n)) == Length(n, ip + |Extension(n)|)
            <==> ip + |Extension(n)| <= |src| && src[ip..ip + |Extension(n)|] == Extension(n)
  {
    if n >= 15 {
      LongLengthIff(src, ip, n - 15);
    }
  }

  /** Every length field that reads as n is the one field written for n. */
  lemma ReadLengthCanonical(src: seq<byte>, ip: nat, nibble: nat)
    requires ip <= |src| && nibble < 16
    requires ReadLength(src, ip, nibble).Length?
    ensures var l := ReadLength(src, ip, nibble);
            Nibble(l.value) == nibble && src[ip..l.next] == Extension(l.value)
  {
    var l := ReadLength(src, ip, nibble);
    if nibble == 15 {
      LongLengthIff(src, ip, l.value - 15);
    }
  }
}
