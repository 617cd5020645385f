/** Scalar types, geometry constants and bit-field access shared by the video block
    (the typedefs and #defines at the top of hls_video_block.cpp). */
module Types {

  /** FILTER_OFFS: border margin on each side of a line-buffer row. */
  const FILTER_OFFS := 2
  /** FILTER_SIZE: edge length of the window and depth of the line buffer. */
  const FILTER_SIZE := 5

  /** uint8_t / unsigned char / ap_uint<8>: a gray pixel or one colour channel. */
  type uint8 = x: int | 0 <= x < 0x100
  /** ap_uint<24>: one RGB word, red in bits 7..0, green in 15..8, blue in 23..16. */
  type uint24 = x: int | 0 <= x < 0x100_0000
  /** char, taken to be signed 8-bit two's complement. */
  type int8 = x: int | -0x80 <= x < 0x80

  datatype Option<T> = None | Some(value: T)

  /** The word whose byte fields 0, 1 and 2 are b0, b1 and b2. */
  function Pack(b0: uint8, b1: uint8, b2: uint8): uint24
  {
    b0 + 0x100 * b1 + 0x1_0000 * b2
  }

  /** `w.range(8k+7, 8k)` read as a value: byte k of the word. The top byte needs no mask, and
      a word below 0x100 has only its lowest byte set. */
  function Field(w: uint24, k: nat): (b: uint8)
    requires k < 3
    ensures k == 2 ==> b == w / 0x1_0000
    ensures w < 0x100 ==> b == if k == 0 then w else 0
  {
    if k == 0 then w % 0x100
    else if k == 1 then w / 0x100 % 0x100
    else w / 0x1_0000 % 0x100
  }

  lemma FieldsOfPack(b0: uint8, b1: uint8, b2: uint8)
    ensures Field(Pack(b0, b1, b2), 0) == b0
    ensures Field(Pack(b0, b1, b2), 1) == b1
    ensures Field(Pack(b0, b1, b2), 2) == b2
  {
    var w := Pack(b0, b1, b2);
    assert w == b0 + 0x100 * (b1 + 0x100 * b2);
    DivModOf(b1 + 0x100 * b2, b0, 0x100);
    DivModOf(b2, b1, 0x100);
    DivModOf(b2, b0 + 0x100 * b1, 0x1_0000);
  }

  /** A word is determined by its three byte fields. */
  lemma PackOfFields(w: uint24)
    ensures w == Pack(Field(w, 0), Field(w, 1), Field(w, 2))
  {
    var q := w / 0x100;
    assert w == 0x100 * q + w % 0x100;
    assert q == 0x100 * (q / 0x100) + q % 0x100;
    DivDiv(w);
  }

  lemma DivDiv(w: uint24)
    ensures w / 0x100 / 0x100 == w / 0x1_0000
  {
    var q := w / 0x1_0000;
    var r := w % 0x1_0000;
    assert w == q * 0x1_0000 + r;
    DivModOf(q * 0x100 + r / 0x100, r % 0x100, 0x100);
    DivModOf(q, r / 0x100, 0x100);
  }

  /** Euclidean division is unique: q and r are the quotient and remainder of q * n + r. */
  lemma DivModOf(q: int, r: int, n: int)
    requires n > 0 && 0 <= r < n
    ensures (q * n + r) / n == q && (q * n + r) % n == r
  {
    var a := q * n + r;
    var q', r' := a / n, a % n;
    assert a == q' * n + r';
    var t := q - q';
    assert t * n == r' - r by {
      assert t * n == q * n - q' * n;
    }
    if t > 0 {
      MulAtLeast(t, n);
    } else if t < 0 {
      MulAtLeast(-t, n);
    }
  }

  lemma MulAtLeast(t: int, n: int)
    requires t >= 1 && n > 0
    ensures t * n >= n
  {
    assert t * n == (t - 1) * n + n;
  }

  lemma MulMonotone(a: int, b: int, n: nat)
    requires a <= b
    ensures a * n <= b * n
  {
    assert b * n - a * n == (b - a) * n;
  }

  /** `w.range(8k+7, 8k) = b`: replaces field k and keeps the other two. */
  function SetField(w: uint24, k: nat, b: uint8): (r: uint24)
    requires k < 3
    ensures Field(r, k) == b
    ensures forall i :: 0 <= i < 3 && i != k ==> Field(r, i) == Field(w, i)
  {
    var b0, b1, b2 := Field(w, 0), Field(w, 1), Field(w, 2);
    if k == 0 then FieldsOfPack(b, b1, b2); Pack(b, b1, b2)
    else if k == 1 then FieldsOfPack(b0, b, b2); Pack(b0, b, b2)
    else FieldsOfPack(b0, b1, b); Pack(b0, b1, b)
  }

  /** Assignment of an int to a char: the char congruent to v modulo 256. */
  function ToChar(v: int): (c: int8)
    ensures (c - v) % 0x100 == 0
  {
    var m := v % 0x100;
    if m < 0x80 then m else m - 0x100
  }

  /** ToChar depends on its argument only modulo 256. */
  lemma ToCharCongruent(u: int, v: int)
    requires (u - v) % 0x100 == 0
    ensures ToChar(u) == ToChar(v)
  {
    var k := (u - v) / 0x100;
    assert u == v + 0x100 * k;
    DivModOf(v / 0x100 + k, v % 0x100, 0x100);
  }

  /** Wrapping after every addition gives the same char as wrapping once at the end. */
  lemma ToCharAdd(a: int, b: int)
    ensures ToChar(ToChar(a) + b) == ToChar(a + b)
  {
    var c := ToChar(a);
    var k := (c - a) / 0x100;
    assert c - a == 0x100 * k;
    assert (c + b) - (a + b) == 0x100 * k;
    DivModOf(k, 0, 0x100);
    ToCharCongruent(c + b, a + b);
  }
}
