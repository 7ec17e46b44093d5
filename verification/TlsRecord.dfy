/** TLS records in the cryptodev driver: MAC, then pad, then encrypt, in place over the
    destination buffer, and the way back. The cipher and the MAC are any functions. */
module TlsRecord {
  import opened Bits
  import opened Options

  const EINVAL: int := 22
  const EBADMSG: int := 74
  const AALG_MAX_RESULT_LEN: nat := 64

  type Bytes = seq<byte>

  /** What a session brings along: `cipher` and `hash` say which halves are set up. */
  datatype Session = Session(
    cipher: bool, hash: bool, blockSize: nat,
    enc: Bytes -> Option<Bytes>, dec: Bytes -> Option<Bytes>, mac: Bytes -> Bytes)

  datatype Outcome = Accepted(length: nat) | Failed(error: int)

  /** The cipher takes any whole number of blocks, keeps lengths and can be undone. */
  ghost predicate Invertible(s: Session) {
    && 1 <= s.blockSize <= 256
    && forall x: Bytes :: |x| % s.blockSize == 0 ==>
         && s.enc(x).Some? && |s.enc(x).value| == |x| && s.dec(s.enc(x).value) == Some(x)
         && s.dec(x).Some? && |s.dec(x).value| == |x| && s.enc(s.dec(x).value) == Some(x)
  }

  ghost predicate Macs(s: Session, tagLen: nat) {
    tagLen <= AALG_MAX_RESULT_LEN && forall x: Bytes :: tagLen <= |s.mac(x)|
  }

  // ---------------------------------------------------------------------------
  // Padding, section 6.2.3.2 of RFC 5246
  // ---------------------------------------------------------------------------

  function PadSize(len: nat, blockSize: nat): (n: nat)
    requires blockSize > 0
    ensures 1 <= n <= blockSize
  {
    blockSize - len % blockSize
  }

  function Fill(b: byte, n: nat): Bytes {
    seq(n, _ => b)
  }

  function Padding(len: nat, blockSize: nat): (pad: Bytes)
    requires 1 <= blockSize <= 256
    ensures |pad| == PadSize(len, blockSize)
  {
    Fill(PadSize(len, blockSize) - 1, PadSize(len, blockSize))
  }

  /** The record ends in p + 1 bytes of value p. */
  predicate WellPadded(x: Bytes) {
    && x != []
    && x[|x| - 1] + 1 <= |x|
    && forall i :: |x| - x[|x| - 1] - 1 <= i < |x| ==> x[i] == x[|x| - 1]
  }

  method PadRecord(dst: array<byte>, len: nat, blockSize: nat) returns (padSize: nat)
    requires 1 <= blockSize <= 256 && len + blockSize <= dst.Length
    modifies dst
    ensures padSize == PadSize(len, blockSize)
    ensures dst[..len + padSize] == old(dst[..len]) + Padding(len, blockSize)
  {
    padSize := PadSize(len, blockSize);
    hide PadSize;
    for i := 0 to padSize
      invariant forall k :: 0 <= k < len ==> dst[k] == old(dst[k])
      invariant forall k :: len <= k < len + i ==> dst[k] == padSize - 1
    {
      dst[len + i] := padSize - 1;
    }
  }

  /** Length of a well-formed padding, or -EBADMSG. */
  method VerifyRecordPad(dst: array<byte>, len: nat) returns (r: int)
    requires 0 < len <= dst.Length
    ensures r == if WellPadded(dst[..len]) then dst[len - 1] + 1 else -EBADMSG
  {
    var padSize := dst[len - 1];
    if padSize + 1 > len {
      return -EBADMSG;
    }
    ghost var x := dst[..len];
    var first := len - padSize - 1;
    for i := 0 to padSize
      invariant forall k :: first <= k < first + i ==> x[k] == padSize
    {
      if dst[first + i] != padSize {
        assert x[first + i] != padSize;
        return -EBADMSG;
      }
    }
    return padSize + 1;
  }

  // ---------------------------------------------------------------------------
  // What one record becomes
  // ---------------------------------------------------------------------------

  function Tag(s: Session, auth: Bytes, data: Bytes, tagLen: nat): (tag: Bytes)
    requires tagLen <= |s.mac(auth + data)|
    ensures |tag| == tagLen
  {
    s.mac(auth + data)[..tagLen]
  }

  function Padded(s: Session, body: Bytes): Bytes
    requires 1 <= s.blockSize <= 256
  {
    if s.blockSize > 1 then body + Padding(|body|, s.blockSize) else body
  }

  ghost function Sealed(s: Session, auth: Bytes, data: Bytes, tagLen: nat): (c: Option<Bytes>)
    requires Macs(s, tagLen) && 1 <= s.blockSize <= 256
  {
    var body := if s.hash then data + Tag(s, auth, data, tagLen) else data;
    if s.cipher then s.enc(Padded(s, body)) else Some(body)
  }

  /** Bytes the padding check takes off the end; nothing when it fails. */
  function Stripped(s: Session, plain: Bytes): (n: nat)
    ensures n <= |plain|
  {
    if s.cipher && s.blockSize > 1 && WellPadded(plain) then |plain| - plain[|plain| - 1] - 1 else |plain|
  }

  predicate BadPadding(s: Session, plain: Bytes) {
    s.cipher && s.blockSize > 1 && !WellPadded(plain)
  }

  /** The verdict on a decrypted record. Without a hash a bad padding goes unnoticed. */
  ghost function Verdict(s: Session, auth: Bytes, plain: Bytes, tagLen: nat): Outcome
    requires Macs(s, tagLen)
  {
    var n := Stripped(s, plain);
    if !s.hash then Accepted(n)
    else if tagLen > n then Failed(EINVAL)
    else if plain[n - tagLen..n] != Tag(s, auth, plain[..n - tagLen], tagLen) || BadPadding(s, plain) then Failed(EBADMSG)
    else Accepted(n - tagLen)
  }

  // ---------------------------------------------------------------------------
  // tls_auth_n_crypt
  // ---------------------------------------------------------------------------

  lemma PaddedIs(s: Session, body: Bytes)
    requires 1 <= s.blockSize <= 256
    ensures Padded(s, body) == if s.blockSize > 1 then body + Padding(|body|, s.blockSize) else body
    ensures |body| <= |Padded(s, body)| <= |body| + s.blockSize
  {
  }

  method CopyInto(dst: array<byte>, at: nat, data: Bytes)
    requires at + |data| <= dst.Length
    modifies dst
    ensures dst[..at + |data|] == old(dst[..at]) + data
    ensures forall k :: at + |data| <= k < dst.Length ==> dst[k] == old(dst[k])
  {
    for i := 0 to |data|
      invariant dst[..at] == old(dst[..at])
      invariant forall k :: 0 <= k < i ==> dst[at + k] == data[k]
      invariant forall k :: at + i <= k < dst.Length ==> dst[k] == old(dst[k])
    {
      dst[at + i] := data[i];
    }
  }

  /** The encrypting half. `dst` holds `len` bytes of data and has room for a block of
      padding and the tag behind them. */
  method EncryptRecord(s: Session, auth: Bytes, dst: array<byte>, len: nat, tagLen: nat) returns (r: Outcome)
    requires Macs(s, tagLen) && 1 <= s.blockSize <= 256
    requires len + s.blockSize + tagLen <= dst.Length
    requires forall x: Bytes :: s.enc(x).Some? ==> |s.enc(x).value| == |x|
    modifies dst
    ensures var c := Sealed(s, auth, old(dst[..len]), tagLen);
      match r
      case Accepted(n) => c.Some? && n == |c.value| <= len + s.blockSize + tagLen && dst[..n] == c.value
      case Failed(e) => c == None
  {
    hide Padded;
    ghost var data := dst[..len];
    var n := len;
    if s.hash {
      var hash := s.mac(auth + dst[..len]);
      CopyInto(dst, n, hash[..tagLen]);
      n := n + tagLen;
    }
    ghost var body := if s.hash then data + Tag(s, auth, data, tagLen) else data;
    assert dst[..n] == body;
    if s.cipher {
      PaddedIs(s, body);
      if s.blockSize > 1 {
        var pad := PadRecord(dst, n, s.blockSize);
        n := n + pad;
      }
      assert dst[..n] == Padded(s, body);
      var c := s.enc(dst[..n]);
      if c == None {
        return Failed(EINVAL);
      }
      CopyInto(dst, 0, c.value);
    }
    r := Accepted(n);
  }

  /** The decrypting half. The padding check reads the last byte, so under a block cipher there
      must be one. */
  method DecryptRecord(s: Session, auth: Bytes, dst: array<byte>, len: nat, tagLen: nat) returns (r: Outcome)
    requires Macs(s, tagLen)
    requires len <= dst.Length && (s.cipher && s.blockSize > 1 ==> len > 0)
    requires forall x: Bytes :: s.dec(x).Some? ==> |s.dec(x).value| == |x|
    modifies dst
    ensures var plain := if s.cipher then s.dec(old(dst[..len])) else Some(old(dst[..len]));
      && (plain == None ==> r == Failed(EINVAL))
      && (plain.Some? ==> dst[..len] == plain.value && r == Verdict(s, auth, plain.value, tagLen))
  {
    hide WellPadded, Verdict;
    var fail := false;
    var n := len;
    if s.cipher {
      var plain := s.dec(dst[..len]);
      if plain == None {
        return Failed(EINVAL);
      }
      CopyInto(dst, 0, plain.value);
      if s.blockSize > 1 {
        var ret := VerifyRecordPad(dst, len);
        if ret < 0 {
          fail := true;
        } else {
          n := n - ret;
        }
      }
    }
    var plain := dst[..len];
    assert len > 0 ==> plain[len - 1] == dst[len - 1];
    assert n == Stripped(s, plain) && fail == BadPadding(s, plain);
    VerdictIs(s, auth, plain, tagLen);
    r := if s.hash then CheckTag(s, auth, plain, n, tagLen, fail) else Accepted(n);
  }

  /** Reads the tag in front of position n and compares it with the one of the rest. */
  function CheckTag(s: Session, auth: Bytes, plain: Bytes, n: nat, tagLen: nat, fail: bool): Outcome
    requires n <= |plain| && forall x: Bytes :: tagLen <= |s.mac(x)|
  {
    if tagLen > AALG_MAX_RESULT_LEN || tagLen > n then Failed(EINVAL)
    else
      var vhash := plain[n - tagLen..n];
      var hash := s.mac(auth + plain[..n - tagLen]);
      if vhash != hash[..tagLen] || fail then Failed(EBADMSG) else Accepted(n - tagLen)
  }

  lemma VerdictIs(s: Session, auth: Bytes, plain: Bytes, tagLen: nat)
    requires Macs(s, tagLen)
    ensures Verdict(s, auth, plain, tagLen) ==
      if s.hash then CheckTag(s, auth, plain, Stripped(s, plain), tagLen, BadPadding(s, plain))
      else Accepted(Stripped(s, plain))
  {
    hide Stripped, BadPadding;
  }

  // ---------------------------------------------------------------------------
  // What stands in a record
  // ---------------------------------------------------------------------------

  /** Before it is encrypted: the data, the first bytes of the MAC of everything authenticated,
      and bytes up to a whole block that name their number less one. */
  lemma RecordLayout(s: Session, auth: Bytes, data: Bytes, tagLen: nat)
    requires Macs(s, tagLen) && 1 <= s.blockSize <= 256
    ensures s.hash && !s.cipher ==> Sealed(s, auth, data, tagLen) == Some(data + s.mac(auth + data)[..tagLen])
    ensures !s.hash && !s.cipher ==> Sealed(s, auth, data, tagLen) == Some(data)
    ensures s.cipher && s.blockSize > 1 ==>
      var body := if s.hash then data + s.mac(auth + data)[..tagLen] else data;
      var pad := s.blockSize - |body| % s.blockSize;
      Sealed(s, auth, data, tagLen) == s.enc(body + seq(pad, _ => pad - 1))
    ensures s.cipher && s.blockSize == 1 ==>
      Sealed(s, auth, data, tagLen) == s.enc(if s.hash then data + s.mac(auth + data)[..tagLen] else data)
  {
    var body := if s.hash then data + s.mac(auth + data)[..tagLen] else data;
    if s.cipher && s.blockSize > 1 {
      var pad := s.blockSize - |body| % s.blockSize;
      assert Padding(|body|, s.blockSize) == seq(pad, _ => pad - 1);
    }
  }

  // ---------------------------------------------------------------------------
  // There and back
  // ---------------------------------------------------------------------------

  lemma PaddedToBlocks(s: Session, body: Bytes)
    requires 1 <= s.blockSize <= 256
    ensures |Padded(s, body)| % s.blockSize == 0
    ensures |Padded(s, body)| <= |body| + s.blockSize
  {
    if s.blockSize > 1 {
      var b, q, r := s.blockSize, |body| / s.blockSize, |body| % s.blockSize;
      assert |body| + (b - r) == b * q + b;
      assert b * q + b == b * (q + 1);
      DivUnique(b * (q + 1), b, q + 1, 0);
    } else {
      assert |body| % 1 == 0;
    }
  }

  /** What was padded is well padded, and stripping gives it back. */
  lemma PaddingStrips(s: Session, body: Bytes)
    requires 1 <= s.blockSize <= 256 && s.cipher
    ensures !BadPadding(s, Padded(s, body))
    ensures Stripped(s, Padded(s, body)) == |body|
    ensures Padded(s, body)[..|body|] == body
  {
  }

  lemma VerdictOnBody(s: Session, auth: Bytes, data: Bytes, plain: Bytes, tagLen: nat)
    requires Macs(s, tagLen) && !BadPadding(s, plain)
    requires plain[..Stripped(s, plain)] == if s.hash then data + Tag(s, auth, data, tagLen) else data
    ensures Verdict(s, auth, plain, tagLen) == Accepted(|data|)
    ensures |data| <= |plain| && plain[..|data|] == data
  {
    hide Stripped, BadPadding;
    var n := Stripped(s, plain);
    var body := plain[..n];
    assert plain[..|data|] == body[..|data|] == data;
    if s.hash {
      assert n == |data| + tagLen;
      assert plain[n - tagLen..n] == body[|data|..] == Tag(s, auth, data, tagLen);
    }
  }

  /** Every record that is sealed is opened again: the same bytes, the same length. */
  lemma SealedOpens(s: Session, auth: Bytes, data: Bytes, tagLen: nat)
    requires Invertible(s) && Macs(s, tagLen)
    ensures var c := Sealed(s, auth, data, tagLen);
      && c.Some?
      && |c.value| <= |data| + s.blockSize + tagLen
      && var plain := if s.cipher then s.dec(c.value) else c;
         && plain.Some?
         && Verdict(s, auth, plain.value, tagLen) == Accepted(|data|)
         && |data| <= |plain.value| && plain.value[..|data|] == data
  {
    hide Stripped, BadPadding, Verdict, Padded, Tag;
    var body := if s.hash then data + Tag(s, auth, data, tagLen) else data;
    if s.cipher {
      PaddedToBlocks(s, body);
      PaddingStrips(s, body);
      VerdictOnBody(s, auth, data, Padded(s, body), tagLen);
    } else {
      NoCipherNoPadding(s, body);
      assert body[..|body|] == body;
      VerdictOnBody(s, auth, data, body, tagLen);
    }
  }

  lemma NoCipherNoPadding(s: Session, x: Bytes)
    requires !s.cipher
    ensures Stripped(s, x) == |x| && !BadPadding(s, x)
  {
  }

  /** A record body that ends in the tag of what stands before it. */
  ghost predicate Authentic(s: Session, auth: Bytes, body: Bytes, tagLen: nat) {
    exists data: Bytes :: tagLen <= |s.mac(auth + data)| && body == data + Tag(s, auth, data, tagLen)
  }

  /** Exactly which decrypted records are accepted when a hash is configured: the padding, if
      there is a block cipher, is well formed, and the bytes in front of it end in the right tag. */
  lemma AcceptedIff(s: Session, auth: Bytes, plain: Bytes, tagLen: nat)
    requires Macs(s, tagLen) && s.hash
    ensures Verdict(s, auth, plain, tagLen).Accepted? <==>
      !BadPadding(s, plain) && Authentic(s, auth, plain[..Stripped(s, plain)], tagLen)
  {
    hide Stripped, BadPadding;
    var n := Stripped(s, plain);
    var body := plain[..n];
    if !BadPadding(s, plain) && Authentic(s, auth, body, tagLen) {
      var data: Bytes :| tagLen <= |s.mac(auth + data)| && body == data + Tag(s, auth, data, tagLen);
      VerdictOnBody(s, auth, data, plain, tagLen);
    } else if tagLen <= n {
      assert body == plain[..n - tagLen] + plain[n - tagLen..n];
    }
  }

  /** Sealing what was accepted gives the same record back if and only if its padding is
      as short as it can be; a sender may pad with more blocks, and that is accepted. */
  lemma ResealedIff(s: Session, auth: Bytes, c: Bytes, tagLen: nat, n: nat)
    requires Invertible(s) && Macs(s, tagLen) && s.hash && s.cipher && s.blockSize > 1
    requires |c| % s.blockSize == 0 && c != []
    requires Verdict(s, auth, s.dec(c).value, tagLen) == Accepted(n)
    ensures n <= |c|
    ensures Sealed(s, auth, s.dec(c).value[..n], tagLen) == Some(c)
      <==> s.dec(c).value[|c| - 1] < s.blockSize
  {
    var plain := s.dec(c).value;
    var pad := plain[|c| - 1];
    var m := |plain| - pad - 1;
    var body := plain[..m];
    assert body == plain[..n] + Tag(s, auth, plain[..n], tagLen) by {
      assert body == plain[..n] + plain[n..m];
    }
    ResealedBody(s, plain, m, pad);
    PaddedToBlocks(s, body);
    if Padded(s, body) != plain {
      assert s.dec(s.enc(Padded(s, body)).value) == Some(Padded(s, body));
    }
  }

  lemma ResealedBody(s: Session, plain: Bytes, m: nat, pad: nat)
    requires 1 < s.blockSize <= 256 && WellPadded(plain) && |plain| % s.blockSize == 0
    requires pad == plain[|plain| - 1] && m == |plain| - pad - 1
    ensures Padded(s, plain[..m]) == plain <==> pad < s.blockSize
  {
    var b := s.blockSize;
    var padded := Padded(s, plain[..m]);
    if pad < b {
      assert (m + pad + 1) % b == 0;
      var q := |plain| / b;
      assert |plain| == b * q;
      if pad + 1 < b {
        assert m == b * (q - 1) + (b - pad - 1) by { assert b * (q - 1) == b * q - b; }
        assert q >= 1;
        DivUnique(m, b, q - 1, b - pad - 1);
      } else {
        assert m == b * (q - 1) + 0 by { assert b * (q - 1) == b * q - b; }
        DivUnique(m, b, q - 1, 0);
      }
      assert PadSize(m, b) == pad + 1;
      assert padded == plain;
    } else {
      assert |padded| <= m + b < |plain|;
    }
  }

  /** Without a hash nothing is rejected, whatever the padding looks like. */
  lemma WithoutHashAllAccepted(s: Session, auth: Bytes, plain: Bytes, tagLen: nat)
    requires Macs(s, tagLen) && !s.hash
    ensures Verdict(s, auth, plain, tagLen) == Accepted(Stripped(s, plain))
    ensures BadPadding(s, plain) ==> Verdict(s, auth, plain, tagLen) == Accepted(|plain|)
  {
  }
}
