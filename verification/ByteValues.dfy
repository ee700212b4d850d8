/** Bytes and their values. */
module ByteValues {

  function ToByte(n: nat): bv8
    requires n < 256
  {
    n as bv8
  }

  lemma ByteOfValue(x: bv8)
    ensures ToByte(x as int) == x
  {}

  lemma NextValue(x: bv8)
    requires x != 255
    ensures (x + 1) as int == x as int + 1
  {}

  lemma {:induction false} SomeByte(n: nat) returns (x: bv8)
    requires n < 256
    ensures x as int == n
  {
    x := 0;
    if n > 0 {
      var before := SomeByte(n - 1);
      NextValue(before);
      x := before + 1;
    }
  }

  lemma ByteValue(n: nat)
    requires n < 256
    ensures ToByte(n) as int == n
  {
    hide ToByte;
    var x := SomeByte(n);
    ByteOfValue(x);
  }
}
