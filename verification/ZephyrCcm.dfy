/** The Zephyr crypto backend: assembling the arguments of the CCM call from the driver's spans. The backend
authenticates the whole AD record, so it rebuilds the four header bytes that the driver stripped. */
module ZephyrCcm {
  import opened Bytes
  import opened AdStructures
  import opened DriverModel

  const AD_HDR := 4
  const MAX_AAD := 32
  const MAX_CT := 64

  /** The arguments of the CCM call: `cipher` is what the call reads, the ciphertext and the tag. */
  datatype CcmCall = CcmCall(key: seq<byte>, nonce: seq<byte>, cipher: seq<byte>, ctLen: nat, aad: seq<byte>)

  /** The additional data passed on, for `n` bytes of ciphertext. */
  function FullAad(aad: seq<byte>, n: nat): seq<byte> {
    [(1 + 2 + |aad| + n + TAG_LEN) % 256, MANUFACTURER, COMPANY_LO, COMPANY_HI] + aad
  }

  method Fill(target: array<byte>, at: nat, source: seq<byte>)
    requires at + |source| <= target.Length
    modifies target
    ensures target[..at] == old(target[..at])
    ensures target[at..at + |source|] == source
    ensures target[at + |source|..] == old(target[at + |source|..])
  {
    var i := 0;
    while i < |source|
      invariant 0 <= i <= |source|
      invariant target[..at] == old(target[..at])
      invariant target[at..at + i] == source[..i]
      invariant target[at + i..] == old(target[at + i..])
    {
      target[at + i] := source[i];
      i := i + 1;
    }
  }

  /** The length byte, type and company ID of the AD record, then the driver's additional data. */
  method BuildAad(aad: seq<byte>, ctLen: nat) returns (fullAad: array<byte>)
    requires |aad| <= MAX_AAD
    ensures fresh(fullAad) && fullAad.Length == AD_HDR + MAX_AAD
    ensures fullAad[..AD_HDR + |aad|] == FullAad(aad, ctLen)
  {
    var lenVal := 1 + 2 + |aad| + ctLen + TAG_LEN;
    fullAad := new byte[AD_HDR + MAX_AAD](_ => 0);
    fullAad[0] := lenVal % 256;
    fullAad[1], fullAad[2], fullAad[3] := MANUFACTURER, COMPANY_LO, COMPANY_HI;
    assert fullAad[..AD_HDR] == FullAad([], |aad| + ctLen);
    Fill(fullAad, AD_HDR, aad);
    assert fullAad[..AD_HDR + |aad|] == fullAad[..AD_HDR] + aad;
  }

  /** The nonce filled up with zeros to its full length. */
  function Padded(nonce: seq<byte>): (n: seq<byte>)
    requires |nonce| <= NONCE_LEN
    ensures |n| == 13 && nonce <= n && forall k | |nonce| <= k < 13 :: n[k] == 0
  {
    nonce + seq(NONCE_LEN - |nonce|, _ => 0)
  }

  /** Refuses additional data or ciphertext that does not fit the fixed buffers; otherwise fills them. */
  method AssembleCall(key: seq<byte>, nonce: seq<byte>, aad: seq<byte>, ciphertext: seq<byte>, tag: seq<byte>)
    returns (call: Option<CcmCall>)
    requires |nonce| <= NONCE_LEN && |tag| == TAG_LEN
    ensures call == if |aad| > 32 || |ciphertext| > 64 then None
                    else Some(CcmCall(key, Padded(nonce), ciphertext + tag, |ciphertext|,
                                      FullAad(aad, |ciphertext|)))
  {
    var nonceBuf := new byte[NONCE_LEN](_ => 0);
    Fill(nonceBuf, 0, nonce);
    assert nonceBuf[..] == nonceBuf[..|nonce|] + nonceBuf[|nonce|..];
    assert nonceBuf[..] == Padded(nonce);
    var ctLen := |ciphertext|;
    if |aad| > MAX_AAD {
      return None;
    }
    var fullAad := BuildAad(aad, ctLen);
    var fullAadLen := AD_HDR + |aad|;
    ghost var full := fullAad[..fullAadLen];
    if ctLen > MAX_CT {
      return None;
    }
    var cipherBuf := new byte[MAX_CT + TAG_LEN](_ => 0);
    Fill(cipherBuf, 0, ciphertext);
    assert cipherBuf[..ctLen] == ciphertext;
    Fill(cipherBuf, ctLen, tag);
    assert cipherBuf[..ctLen + TAG_LEN] == ciphertext + tag;
    assert fullAad[..fullAadLen] == full;
    call := Some(CcmCall(key, nonceBuf[..], cipherBuf[..ctLen + TAG_LEN], ctLen, fullAad[..fullAadLen]));
  }

  /** Header reconstruction: for a payload the walk found in an advertisement and a handler split into
  additional data and tag, the backend's additional data followed by the tag is byte for byte the AD record
  the payload came from, and its length byte is not truncated. */
  lemma HeaderReconstructed(data: seq<byte>, after: byte) returns (at: nat)
    requires |Extract(data, after)| >= TAG_LEN
    ensures var p := Extract(data, after);
            && RecordAt(data + [after], at, p)
            && FullAad(Aad(p), 0) + Tag(p) == (data + [after])[at..at + AD_HDR + |p|]
            && FullAad(Aad(p), 0)[0] == 3 + |p|
  {
    at := PayloadHasHeader(data, after);
    ghost var p := Extract(data, after);
    FullAadIsHeader(Aad(p), [], Tag(p));
    assert Aad(p) + [] + Tag(p) == p;
    assert FullAad(Aad(p), 0) + [] + Tag(p) == FullAad(Aad(p), 0) + Tag(p);
  }

  /** However a record's payload is split into additional data, ciphertext and tag: the four rebuilt header bytes
  are the record's length byte, manufacturer type 0xFF and company ID 0xDA, 0x03, and what follows completes it. */
  lemma FullAadIsHeader(aad: seq<byte>, ciphertext: seq<byte>, tag: seq<byte>)
    requires |tag| == 4 && |aad| + |ciphertext| + 4 <= 252
    ensures FullAad(aad, |ciphertext|) == [7 + |aad| + |ciphertext|, 0xFF, 0xDA, 0x03] + aad
    ensures FullAad(aad, |ciphertext|) + ciphertext + tag == EnoceanRecord(aad + ciphertext + tag).Write()
  {
  }

  /** No telegram in a legacy advertisement is refused for its size. */
  lemma LegacyFits(data: seq<byte>, after: byte)
    requires |data| <= 31 && |Extract(data, after)| >= TAG_LEN
    ensures |Aad(Extract(data, after))| <= 32
  {
  }
}
