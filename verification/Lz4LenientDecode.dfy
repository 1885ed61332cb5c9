/** What the optimised decoder accepts for an output of exactly the right size: the byte-by-byte
    decoder, except that a match copied by the shortcut may stop less than 5 bytes before the end. */
module Lz4LenientDecode {
  import opened Bytes
  import opened Lz4Format
  import opened Lz4Decode

  /** At a token with a short literal length the shortcut is open: 16 bytes of input and 32
      bytes of output are there. */
  predicate ShortcutOpen(src: seq<byte>, ip: nat, size: nat, n: nat) {
    ip + 17 < |src| && src[ip] / 16 < 15 && size + 32 <= n
  }

  function LenientToken(src: seq<byte>, ip: nat, out: seq<byte>, n: nat): (r: Decoded)
    requires ip <= |src| && |out| <= n
    decreases |src| - ip, 0
  {
    if ip == |src| then ReadsPast
    else match ReadLength(src, ip + 1, src[ip] / 16)
      case OffEnd => ReadsPast
      case Length(ll, next) => LenientLiterals(src, next, src[ip] % 16, ll, out, n, ShortcutOpen(src, ip, |out|, n))
  }

  function LenientLiterals(src: seq<byte>, ip: nat, low: nat, ll: nat, out: seq<byte>, n: nat, short: bool): (r: Decoded)
    requires ip <= |src| && |out| <= n
    decreases |src| - ip, 4
  {
    if n - |out| < ll then Invalid
    else if |src| - ip < ll then ReadsPast
    else
      var out' := out + src[ip..ip + ll];
      if n - |out'| < MF_LIMIT then
        if |out'| == n then Ok(out', ip + ll) else Invalid
      else LenientOffset(src, ip + ll, low, out', n, short)
  }

  /** The second stage of the shortcut takes only short matches from 8 or more bytes back. */
  function LenientOffset(src: seq<byte>, ip: nat, low: nat, out: seq<byte>, n: nat, short: bool): (r: Decoded)
    requires ip <= |src| && |out| <= n
    decreases |src| - ip, 3
  {
    if ip + 2 > |src| then ReadsPast
    else
      var offset: nat := src[ip] as int + 256 * src[ip + 1] as int;
      LenientMatchLength(src, ip + 2, low, offset, out, n, short && low != 15 && offset >= 8)
  }

  function LenientMatchLength(src: seq<byte>, ip: nat, low: nat, offset: nat, out: seq<byte>, n: nat, short: bool)
    : (r: Decoded)
    requires ip <= |src| && |out| <= n
    decreases |src| - ip, 2
  {
    match ReadLength(src, ip, low)
    case OffEnd => ReadsPast
    case Length(ml, next) => LenientCopy(src, next, offset, ml + MIN_MATCH, out, n, short)
  }

  /** Only here does it differ: the end rule is waived for the shortcut. */
  function LenientCopy(src: seq<byte>, ip: nat, offset: nat, ml: nat, out: seq<byte>, n: nat, short: bool): (r: Decoded)
    requires ip <= |src| && |out| <= n
    decreases |src| - ip, 1
  {
    if n - |out| < ml || offset > |out| then Invalid
    else if offset == 0 then ZeroOffset
    else
      var out' := CopyMatch(out, offset, ml);
      if n - |out'| < LAST_LITERALS && !short then Invalid else LenientToken(src, ip, out', n)
  }

  function LenientDecode(src: seq<byte>, n: nat): (r: Decoded) { LenientToken(src, 0, [], n) }

  // ----- Against the byte-by-byte decoder -----------------------------------

  /** Wherever the byte-by-byte decoder does not report an error the two agree. */
  lemma {:induction false} StrictTokenIsLenient(src: seq<byte>, ip: nat, out: seq<byte>, n: nat)
    requires ip <= |src| && |out| <= n && DecodeToken(src, ip, out, n) != Invalid
    ensures LenientToken(src, ip, out, n) == DecodeToken(src, ip, out, n)
    decreases |src| - ip, 0
  {
    if ip < |src| && ReadLength(src, ip + 1, src[ip] / 16).Length? {
      var l := ReadLength(src, ip + 1, src[ip] / 16);
      StrictLiteralsAreLenient(src, l.next, src[ip] % 16, l.value, out, n, ShortcutOpen(src, ip, |out|, n));
    }
  }

  lemma {:induction false} StrictLiteralsAreLenient(src: seq<byte>, ip: nat, low: nat, ll: nat, out: seq<byte>, n: nat,
                                                    short: bool)
    requires ip <= |src| && |out| <= n && DecodeLiterals(src, ip, low, ll, out, n) != Invalid
    ensures LenientLiterals(src, ip, low, ll, out, n, short) == DecodeLiterals(src, ip, low, ll, out, n)
    decreases |src| - ip, 2
  {
    if ll <= n - |out| && ll <= |src| - ip {
      var out', next := out + src[ip..ip + ll], ip + ll;
      if |out'| + MF_LIMIT <= n && next + 2 <= |src| {
        var offset: nat := src[next] as int + 256 * src[next + 1] as int;
        assert DecodeOffset(src, next, low, out', n) == DecodeMatchLength(src, next + 2, low, offset, out', n);
        StrictMatchIsLenient(src, next + 2, low, offset, out', n, short && low != 15 && offset >= 8);
      }
    }
  }

  lemma {:induction false} StrictMatchIsLenient(src: seq<byte>, ip: nat, low: nat, offset: nat, out: seq<byte>, n: nat,
                                                short: bool)
    requires ip <= |src| && |out| <= n && DecodeMatchLength(src, ip, low, offset, out, n) != Invalid
    ensures LenientMatchLength(src, ip, low, offset, out, n, short) == DecodeMatchLength(src, ip, low, offset, out, n)
    decreases |src| - ip, 1
  {
    match ReadLength(src, ip, low)
    case OffEnd =>
    case Length(v, next) =>
      assert DecodeMatchLength(src, ip, low, offset, out, n) == DecodeCopy(src, next, offset, v + MIN_MATCH, out, n);
      if offset >= 1 {
        StrictTokenIsLenient(src, next, CopyMatch(out, offset, v + MIN_MATCH), n);
      }
  }

  /** Whatever is not an error for the byte-by-byte decoder decodes alike. */
  lemma StrictIsLenient(src: seq<byte>, n: nat)
    requires Decode(src, n) != Invalid
    ensures LenientDecode(src, n) == Decode(src, n)
  {
    StrictTokenIsLenient(src, 0, [], n);
  }

  /** 14 literals, a match of 18 up to the very end of the output, and no last literals. */
  function ShortcutBlock(): (src: seq<byte>)
    ensures |src| == 18
  { [14 * 16 + 14] + seq(14, _ => 65) + OffsetBytes(8) + [0] }

  /** The two do differ: this block breaks the end rule and is nevertheless accepted. */
  lemma ShortcutSkipsEndRule()
    ensures Decode(ShortcutBlock(), 32) == Invalid
    ensures LenientDecode(ShortcutBlock(), 32).Ok? && LenientDecode(ShortcutBlock(), 32).used == |ShortcutBlock()|
  {
    var src := ShortcutBlock();
    var out := src[1..15];
    assert [] + out == out && src[15] == 8 && src[16] == 0 && src[17] == 0;
    var all := CopyMatch(out, 8, 18);
    assert Decode(src, 32) == DecodeLiterals(src, 1, 14, 14, [], 32) == DecodeOffset(src, 15, 14, out, 32);
    assert DecodeOffset(src, 15, 14, out, 32) == DecodeMatchLength(src, 17, 14, 8, out, 32);
    assert LenientDecode(src, 32) == LenientLiterals(src, 1, 14, 14, [], 32, true);
    assert LenientDecode(src, 32) == LenientOffset(src, 15, 14, out, 32, true);
    assert LenientDecode(src, 32) == LenientMatchLength(src, 17, 14, 8, out, 32, true);
    assert LenientDecode(src, 32) == LenientToken(src, 17, all, 32);
    assert LenientDecode(src, 32) == LenientLiterals(src, 18, 0, 0, all, 32, false);
  }
}
