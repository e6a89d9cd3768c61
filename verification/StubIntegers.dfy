/** UT_StoreRetval and UT_LoadRetval as conversions between integer widths. */
module StubIntegers {
  import opened StubTable

  // v is representable in n bytes, in two's complement.
  predicate Fits(v: int, n: nat)
    decreases n
  {
    if n == 0 then false else if n == 1 then -128 <= v < 128 else Fits(v / 256, n - 1)
  }

  // 2 to the power of 8 n - 1
  function Half(n: nat): int
    requires n > 0
  {
    if n == 1 then 128 else 256 * Half(n - 1)
  }

  lemma {:induction false} FitsExactly(v: int, n: nat)
    requires n > 0
    ensures Fits(v, n) <==> -Half(n) <= v < Half(n)
    decreases n
  {
    if n > 1 {
      FitsExactly(v / 256, n - 1);
      var h := Half(n - 1);
      assert -h <= v / 256 <==> -256 * h <= v;
      assert v / 256 < h <==> v < 256 * h;
    }
  }

  /** Storing and loading with n bytes gives back exactly the values of an n-byte integer. */
  lemma {:induction false} DecodeEncode(v: int, n: nat)
    requires n > 0
    ensures Decode(Encode(v, n)) == v <==> Fits(v, n)
    ensures Decode(Encode(v, n)) == v <==> -Half(n) <= v < Half(n)
    decreases n
  {
    var b := Encode(v, n);
    if n > 1 {
      assert b[1..] == Encode(v / 256, n - 1);
      DecodeEncode(v / 256, n - 1);
    }
    FitsExactly(v, n);
  }

  lemma Halves()
    ensures Half(1) == 0x80 && Half(2) == 0x8000 && Half(4) == 0x8000_0000 && Half(8) == 0x8000_0000_0000_0000
  {
    assert Half(2) == 256 * Half(1);
    assert Half(4) == 256 * Half(3) && Half(3) == 256 * Half(2);
    assert Half(8) == 256 * Half(7) && Half(7) == 256 * Half(6) && Half(6) == 256 * Half(5) && Half(5) == 256 * Half(4);
  }

  // An int32 passes through the table unchanged, and nothing else does.
  lemma Int32RoundTrip(v: int)
    ensures Int32(v) == v <==> -0x8000_0000 <= v < 0x8000_0000
  {
    hide Encode, Decode;
    Halves();
    DecodeEncode(v, 4);
  }

  // So does a 64-bit value through UT_SetDeferredRetcode and UT_SetDefaultReturnValue.
  lemma Int64RoundTrip(v: int)
    ensures Decode(Encode(v, 8)) == v <==> -0x8000_0000_0000_0000 <= v < 0x8000_0000_0000_0000
  {
    hide Encode, Decode;
    Halves();
    DecodeEncode(v, 8);
  }

  lemma {:induction false} EncodeSign(v: int, n: nat, i: nat)
    requires (v == 0 || v == -1) && i < n
    ensures Encode(v, n)[i] == if v == 0 then 0 else 255
    decreases n
  {
    if i > 0 {
      EncodeSign(v / 256, n - 1, i - 1);
    }
  }

  /** A stored value loaded with another width: the common low-order bytes are kept, further bytes are
      copies of the sign, and excess bytes are cut off. */
  lemma {:induction false} Resized(b: seq<Byte>, n: nat, i: nat)
    requires b != [] && i < n
    ensures Encode(Decode(b), n)[i] == if i < |b| then b[i] else if b[|b| - 1] < 128 then 0 else 255
    decreases n
  {
    if |b| == 1 {
      if i > 0 {
        EncodeSign(Decode(b) / 256, n - 1, i - 1);
      }
    } else {
      assert Decode(b) / 256 == Decode(b[1..]) && Decode(b) % 256 == b[0];
      if i > 0 {
        Resized(b[1..], n - 1, i - 1);
      }
    }
  }
}
