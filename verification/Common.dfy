/** Types shared by the whole model: octets, optional values and outcomes of
    operations that may raise. */
module Common {

  type Byte = b: int | 0 <= b < 0x100
  type Bytes = seq<Byte>
  type U16 = n: int | 0 <= n < 0x1_0000
  type U32 = n: int | 0 <= n < 0x1_0000_0000

  datatype Option<+T> = None | Some(value: T)

  /** A call that returns a value or raises one of the modelled exceptions. */
  datatype Result<+T, +E> = Ok(value: T) | Err(error: E)

  function Max(a: int, b: int): int {
    if a < b then b else a
  }

  function Min(a: int, b: int): int {
    if a < b then a else b
  }

  /** Network byte order, two octets: struct.pack("!H", n). */
  function Pack16(n: U16): (r: Bytes)
    ensures |r| == 2
  {
    [n / 0x100, n % 0x100]
  }

  function Unpack16(b: Bytes): (n: U16)
    requires |b| == 2
  {
    var hi: int := b[0];
    hi * 0x100 + b[1]
  }

  /** Network byte order, four octets: struct.pack("!I", n). */
  function Pack32(n: U32): (r: Bytes)
    ensures |r| == 4
  {
    Pack16(n / 0x1_0000) + Pack16(n % 0x1_0000)
  }

  function Unpack32(b: Bytes): (n: U32)
    requires |b| == 4
  {
    var hi: int := Unpack16(b[..2]);
    hi * 0x1_0000 + Unpack16(b[2..])
  }

  /** The first octet is worth the most, and each less by a factor of 256. */
  lemma BigEndian(n: U16, m: U32)
    ensures Pack16(n) == [n / 0x100, n % 0x100]
    ensures Pack32(m) == [m / 0x100_0000, m / 0x1_0000 % 0x100, m / 0x100 % 0x100, m % 0x100]
  {
    var hi, lo := m / 0x1_0000, m % 0x1_0000;
    assert hi / 0x100 == m / 0x100_0000;
    LowOctets(hi, lo);
  }

  lemma LowOctets(hi: nat, lo: nat)
    requires lo < 0x1_0000
    ensures var m := hi * 0x1_0000 + lo; m / 0x100 % 0x100 == lo / 0x100 && m % 0x100 == lo % 0x100
  {
    var m := hi * 0x1_0000 + lo;
    assert m / 0x100 == hi * 0x100 + lo / 0x100;
  }

  lemma UnpackPack16(n: U16)
    ensures Unpack16(Pack16(n)) == n
  {
  }

  lemma UnpackPack32(n: U32)
    ensures Unpack32(Pack32(n)) == n
  {
    assert Pack32(n)[..2] == Pack16(n / 0x1_0000);
    assert Pack32(n)[2..] == Pack16(n % 0x1_0000);
  }

  /** The value of a hexadecimal digit, by its character code. */
  function HexValue(code: int): (r: Option<nat>)
    ensures r.Some? ==> r.value < 16
  {
    if 0x30 <= code <= 0x39 then Some(code - 0x30)
    else if 0x41 <= code <= 0x46 then Some(code - 0x41 + 10)
    else if 0x61 <= code <= 0x66 then Some(code - 0x61 + 10)
    else None
  }

  /** The digits, by what they spell: each in its place, in either case, and nothing else. */
  lemma HexDigits(code: int, v: nat)
    ensures HexValue(code) == Some(v) <==>
            v < 16 && (code == "0123456789abcdef"[v] as int || code == "0123456789ABCDEF"[v] as int)
  {
    if v < 10 {
      assert "0123456789abcdef"[v] as int == 0x30 + v == "0123456789ABCDEF"[v] as int;
    } else if v < 16 {
      assert "0123456789abcdef"[v] as int == 0x61 + v - 10 && "0123456789ABCDEF"[v] as int == 0x41 + v - 10;
    }
  }

  lemma Subset<T>(a: set<T>, b: set<T>)
    requires a <= b
    ensures |a| <= |b|
  {
    assert b == a + (b - a);
  }
}
