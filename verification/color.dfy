/**
 * `ColorOffsets`: red, green, blue and alpha offsets held as `i32` fields.
 * The documented range -255..255 is not enforced anywhere. Addition is the
 * plain `i32` `+`, modelled with the two's-complement wrap-around of a
 * release build (a debug build panics on the same inputs instead).
 */
module Color {
  const I32_MIN: int := -0x8000_0000
  const I32_MAX: int := 0x7FFF_FFFF
  const I32_MODULUS: int := 0x1_0000_0000

  type I32 = x: int | I32_MIN <= x <= I32_MAX

  /** Two's-complement truncation to 32 bits: the `i32` congruent to `x`. */
  function WrapI32(x: int): (r: I32)
    ensures (r - x) % I32_MODULUS == 0
    ensures I32_MIN <= x <= I32_MAX ==> r == x
  {
    (x - I32_MIN) % I32_MODULUS + I32_MIN
  }

  /** The four channels as a value. */
  datatype Offsets = Offsets(red: I32, green: I32, blue: I32, alpha: I32)

  /** `ColorOffsets::default()`, i.e. `new(0, 0, 0, 0)`. */
  const Zero: Offsets := Offsets(0, 0, 0, 0)

  /** `i32` addition: the sum when it fits, otherwise the sum wrapped around. */
  function AddI32(x: I32, y: I32): (r: I32)
    ensures (r - (x + y)) % I32_MODULUS == 0
    ensures I32_MIN <= x + y <= I32_MAX ==> r == x + y
  {
    WrapI32(x + y)
  }

  /** `a + b`: channel-wise `i32` addition. */
  function Sum(a: Offsets, b: Offsets): Offsets
  {
    Offsets(AddI32(a.red, b.red), AddI32(a.green, b.green), AddI32(a.blue, b.blue), AddI32(a.alpha, b.alpha))
  }

  class ColorOffsets {
    var red: I32
    var green: I32
    var blue: I32
    var alpha: I32

    /** `ColorOffsets::new`: the channels are stored as given. */
    constructor(red: I32, green: I32, blue: I32, alpha: I32)
      ensures Red() == red && Green() == green && Blue() == blue && Alpha() == alpha
    {
      this.red, this.green, this.blue, this.alpha := red, green, blue, alpha;
    }

    /** `ColorOffsets::default`: all four channels zero. */
    constructor Default()
      ensures Value() == Zero
    {
      red, green, blue, alpha := 0, 0, 0, 0;
    }

    function Value(): Offsets
      reads this
    {
      Offsets(red, green, blue, alpha)
    }

    function Red(): I32 reads this { red }
    function Green(): I32 reads this { green }
    function Blue(): I32 reads this { blue }
    function Alpha(): I32 reads this { alpha }

    /** `set_red`: only the red channel changes. */
    method SetRed(value: I32)
      modifies this
      ensures Value() == old(Value()).(red := value)
    {
      red := value;
    }

    /** `set_green`: only the green channel changes. */
    method SetGreen(value: I32)
      modifies this
      ensures Value() == old(Value()).(green := value)
    {
      green := value;
    }

    /** `set_blue`: only the blue channel changes. */
    method SetBlue(value: I32)
      modifies this
      ensures Value() == old(Value()).(blue := value)
    {
      blue := value;
    }

    /** `set_alpha`: only the alpha channel changes. */
    method SetAlpha(value: I32)
      modifies this
      ensures Value() == old(Value()).(alpha := value)
    {
      alpha := value;
    }

    /** `self + rhs`: a new value holding the channel-wise sums. */
    method Add(rhs: ColorOffsets) returns (r: ColorOffsets)
      ensures fresh(r) && r.Value() == Sum(Value(), rhs.Value())
    {
      var s := Sum(Value(), rhs.Value());
      r := new ColorOffsets(s.red, s.green, s.blue, s.alpha);
    }

    /** `self += rhs`: each channel adds the matching channel of `rhs`. */
    method AddAssign(rhs: ColorOffsets)
      modifies this
      ensures Value() == Sum(old(Value()), old(rhs.Value()))
    {
      var r, g, b, a := rhs.red, rhs.green, rhs.blue, rhs.alpha;
      red := AddI32(red, r);
      green := AddI32(green, g);
      blue := AddI32(blue, b);
      alpha := AddI32(alpha, a);
    }
  }

  // Properties.

  /** Two integers congruent modulo 2^32 wrap to the same `i32`. */
  lemma WrapCongruent(x: int, y: int)
    requires (x - y) % I32_MODULUS == 0
    ensures WrapI32(x) == WrapI32(y)
  {
    var rx, ry := WrapI32(x), WrapI32(y);
    var d := rx - ry;
    assert d % I32_MODULUS == 0 by {
      assert rx - ry == (rx - x) - (ry - y) + (x - y);
      ModSum(rx - x, ry - y, x - y);
    }
    assert -I32_MODULUS < d < I32_MODULUS;
  }

  /** Multiples of 2^32 are closed under addition and subtraction. */
  lemma ModSum(a: int, b: int, c: int)
    requires a % I32_MODULUS == 0 && b % I32_MODULUS == 0 && c % I32_MODULUS == 0
    ensures (a - b + c) % I32_MODULUS == 0
  {
    var ka, kb, kc := a / I32_MODULUS, b / I32_MODULUS, c / I32_MODULUS;
    assert a == ka * I32_MODULUS && b == kb * I32_MODULUS && c == kc * I32_MODULUS;
    assert a - b + c == (ka - kb + kc) * I32_MODULUS;
  }

  /** The default offsets are a two-sided identity of `+`. */
  lemma ZeroIsIdentity(a: Offsets)
    ensures Sum(Zero, a) == a && Sum(a, Zero) == a
  {
  }

  /** `+` is commutative. */
  lemma SumCommutes(a: Offsets, b: Offsets)
    ensures Sum(a, b) == Sum(b, a)
  {
  }

  /** `i32` addition is associative, wrap-around included. */
  lemma AddI32Associates(x: I32, y: I32, z: I32)
    ensures AddI32(AddI32(x, y), z) == AddI32(x, AddI32(y, z))
  {
    var xy, yz := AddI32(x, y), AddI32(y, z);
    assert (xy + z - (x + y + z)) % I32_MODULUS == 0 by {
      assert xy + z - (x + y + z) == xy - (x + y);
    }
    assert (x + yz - (x + y + z)) % I32_MODULUS == 0 by {
      assert x + yz - (x + y + z) == yz - (y + z);
    }
    WrapCongruent(xy + z, x + y + z);
    WrapCongruent(x + yz, x + y + z);
  }

  /** `+` is associative. */
  lemma SumAssociates(a: Offsets, b: Offsets, c: Offsets)
    ensures Sum(Sum(a, b), c) == Sum(a, Sum(b, c))
  {
    AddI32Associates(a.red, b.red, c.red);
    AddI32Associates(a.green, b.green, c.green);
    AddI32Associates(a.blue, b.blue, c.blue);
    AddI32Associates(a.alpha, b.alpha, c.alpha);
  }

  /** Within the `i32` range the sum is the exact channel-wise sum. */
  lemma SumExact(a: Offsets, b: Offsets)
    requires I32_MIN <= a.red + b.red <= I32_MAX && I32_MIN <= a.green + b.green <= I32_MAX
    requires I32_MIN <= a.blue + b.blue <= I32_MAX && I32_MIN <= a.alpha + b.alpha <= I32_MAX
    ensures Sum(a, b) == Offsets(a.red + b.red, a.green + b.green, a.blue + b.blue, a.alpha + b.alpha)
  {
  }

  /** The largest offset plus one wraps to the smallest. */
  lemma SumWraps()
    ensures Sum(Offsets(I32_MAX, 0, 0, 0), Offsets(1, 0, 0, 0)).red == I32_MIN
  {
  }
}
