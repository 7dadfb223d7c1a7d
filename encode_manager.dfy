/**
 * The XOR cipher stage (class WGEncodeManager): encodeType 1 XORs every
 * byte of the message with the key byte at the same index modulo the key
 * length; every other encodeType leaves the message unchanged. Decryption
 * applies the same transform again.
 */
module EncodeManager {

  /** The one cipher the stage implements: encodeType 1, "XOR encryption". */
  const XorEncodeType: bv8 := 1

  /** The XOR transform, index by index. */
  function Xor(data: seq<bv8>, key: seq<bv8>): seq<bv8>
    requires |key| > 0
  {
    seq(|data|, i requires 0 <= i < |data| => data[i] ^ key[i % |key|])
  }

  /**
   * What `write(data:encodeType:encodeKey:)` returns. Indexing the key
   * traps on an empty key, so XOR mode needs a non-empty one.
   */
  function Encoded(data: seq<bv8>, encodeType: bv8, key: seq<bv8>): seq<bv8>
    requires encodeType == XorEncodeType ==> |key| > 0
  {
    if encodeType == XorEncodeType then Xor(data, key) else data
  }

  /** `write`: builds the result byte by byte, as the source's loop does. */
  method Write(data: seq<bv8>, encodeType: bv8, key: seq<bv8>) returns (r: seq<bv8>)
    requires encodeType == XorEncodeType ==> |key| > 0
    ensures r == Encoded(data, encodeType, key)
  {
    r := data;
    if encodeType == XorEncodeType {
      var out: seq<bv8> := [];
      var index := 0;
      while index < |data|
        invariant 0 <= index <= |data|
        invariant |out| == index
        invariant forall j :: 0 <= j < index ==> out[j] == data[j] ^ key[j % |key|]
      {
        var keyByte := key[index % |key|];
        out := out + [data[index] ^ keyByte];
        index := index + 1;
      }
      r := out;
    }
  }

  /** `read`: decryption re-applies `write` in XOR mode, otherwise returns the data. */
  method Read(data: seq<bv8>, encodeType: bv8, key: seq<bv8>) returns (r: seq<bv8>)
    requires encodeType == XorEncodeType ==> |key| > 0
    ensures r == Encoded(data, encodeType, key)
  {
    r := data;
    if encodeType == XorEncodeType {
      r := Write(r, encodeType, key);
    }
  }

  /** With any encodeType other than 1 the stage is the identity. */
  lemma OtherTypesAreIdentity(data: seq<bv8>, encodeType: bv8, key: seq<bv8>)
    requires encodeType != XorEncodeType
    ensures Encoded(data, encodeType, key) == data
  {
  }

  /** In XOR mode the output has the input's length and each byte is XORed with the cyclic key. */
  lemma XorBytewise(data: seq<bv8>, key: seq<bv8>)
    requires |key| > 0
    ensures |Encoded(data, XorEncodeType, key)| == |data|
    ensures forall i :: 0 <= i < |data| ==>
      Encoded(data, XorEncodeType, key)[i] == data[i] ^ key[i % |key|]
  {
  }

  /** Encrypting twice with the same key gives the message back. */
  lemma XorInvolution(data: seq<bv8>, key: seq<bv8>)
    requires |key| > 0
    ensures Xor(Xor(data, key), key) == data
  {
    var once := Xor(data, key);
    var twice := Xor(once, key);
    forall i | 0 <= i < |data|
      ensures twice[i] == data[i]
    {
      assert twice[i] == (data[i] ^ key[i % |key|]) ^ key[i % |key|];
    }
  }

  /** `read(write(d, t, k), t, k) == d` for every encodeType and a non-empty key. */
  lemma RoundTrip(data: seq<bv8>, encodeType: bv8, key: seq<bv8>)
    requires |key| > 0
    ensures Encoded(Encoded(data, encodeType, key), encodeType, key) == data
  {
    if encodeType == XorEncodeType {
      XorInvolution(data, key);
    }
  }
}
