/** Bitwise AND and OR of unsigned words, defined bit by bit on naturals, and the
    closed forms of the masks the page-table macros use. */
module Bits {

  function And(x: nat, y: nat): nat {
    if x == 0 || y == 0 then 0 else 2 * And(x / 2, y / 2) + (if x % 2 == 1 && y % 2 == 1 then 1 else 0)
  }

  function Or(x: nat, y: nat): nat {
    if x == 0 then y else if y == 0 then x
    else 2 * Or(x / 2, y / 2) + (if x % 2 == 1 || y % 2 == 1 then 1 else 0)
  }

  lemma {:induction false} AndStep(x: nat, y: nat)
    ensures And(x, y) / 2 == And(x / 2, y / 2)
    ensures And(x, y) % 2 == (if x % 2 == 1 && y % 2 == 1 then 1 else 0)
  {
  }

  lemma {:induction false} OrStep(x: nat, y: nat)
    ensures Or(x, y) / 2 == Or(x / 2, y / 2)
    ensures Or(x, y) % 2 == (if x % 2 == 1 || y % 2 == 1 then 1 else 0)
  {
  }

  /** The bits of a user page's word: valid, dirty, present and writable. */
  ghost predicate UserBits(w: nat) {
    w % 2 == 1 && w / 2 % 2 == 1 && w / 128 % 2 == 1 && w / 256 % 2 == 1
  }

  lemma OrUserBits(x: nat, y: nat)
    requires UserBits(y)
    ensures UserBits(Or(x, y))
  {
    hide Or;
    OrStep(x, y); OrStep(x / 2, y / 2); OrStep(x / 4, y / 4); OrStep(x / 8, y / 8); OrStep(x / 16, y / 16);
    OrStep(x / 32, y / 32); OrStep(x / 64, y / 64); OrStep(x / 128, y / 128); OrStep(x / 256, y / 256);
    Halves(x);
    Halves(y);
    Halves(Or(x, y));
  }

  lemma Halves(x: nat)
    ensures x / 4 / 2 == x / 8 && x / 8 / 2 == x / 16 && x / 16 / 2 == x / 32 && x / 32 / 2 == x / 64
    ensures x / 2 / 2 == x / 4 && x / 64 / 2 == x / 128 && x / 128 / 2 == x / 256
  {
  }

  /** Two naturals with the same last bit and the same remaining bits are equal. */
  lemma SameBits(x: nat, y: nat)
    requires x / 2 == y / 2 && x % 2 == y % 2
    ensures x == y
  {
  }

  lemma {:induction false} OrComm(x: nat, y: nat)
    ensures Or(x, y) == Or(y, x)
    decreases x
  {
    if x != 0 && y != 0 { OrComm(x / 2, y / 2); }
  }

  lemma {:induction false} OrAssoc(x: nat, y: nat, z: nat)
    ensures Or(Or(x, y), z) == Or(x, Or(y, z))
    decreases x
  {
    if x != 0 && y != 0 && z != 0 {
      OrAssoc(x / 2, y / 2, z / 2);
      OrStep(x, y); OrStep(y, z); OrStep(Or(x, y), z); OrStep(x, Or(y, z));
      SameBits(Or(Or(x, y), z), Or(x, Or(y, z)));
    }
  }

  lemma {:induction false} AndAssoc(x: nat, y: nat, z: nat)
    ensures And(And(x, y), z) == And(x, And(y, z))
    decreases x
  {
    if x != 0 && y != 0 && z != 0 {
      AndAssoc(x / 2, y / 2, z / 2);
      AndStep(x, y); AndStep(y, z); AndStep(And(x, y), z); AndStep(x, And(y, z));
      hide And;
      assert And(And(x, y), z) % 2 == And(x, And(y, z)) % 2;
      SameBits(And(And(x, y), z), And(x, And(y, z)));
    }
  }

  lemma {:induction false} AndComm(x: nat, y: nat)
    ensures And(x, y) == And(y, x)
    decreases x
  {
    if x != 0 && y != 0 { AndComm(x / 2, y / 2); }
  }

  lemma {:induction false} AndIdem(x: nat)
    ensures And(x, x) == x
    decreases x
  {
    if x != 0 { AndIdem(x / 2); }
  }

  lemma {:induction false} OrIdem(x: nat)
    ensures Or(x, x) == x
    decreases x
  {
    if x != 0 { OrIdem(x / 2); }
  }

  /** AND distributes over OR. */
  lemma {:induction false} AndOr(x: nat, y: nat, m: nat)
    ensures And(Or(x, y), m) == Or(And(x, m), And(y, m))
    decreases m
  {
    if m != 0 {
      AndOr(x / 2, y / 2, m / 2);
      OrStep(x, y); AndStep(Or(x, y), m); AndStep(x, m); AndStep(y, m);
      OrStep(And(x, m), And(y, m));
      assert And(Or(x, y), m) % 2 == Or(And(x, m), And(y, m)) % 2;
      SameBits(And(Or(x, y), m), Or(And(x, m), And(y, m)));
    }
  }

  /** x shifted left by k bits. */
  function Shl(x: nat, k: nat): nat {
    if k == 0 then x else 2 * Shl(x, k - 1)
  }

  /** x shifted right by k bits. */
  function Shr(x: nat, k: nat): nat {
    if k == 0 then x else Shr(x / 2, k - 1)
  }

  /** The n low bits of x. */
  function Low(x: nat, n: nat): nat {
    if n == 0 then 0 else 2 * Low(x / 2, n - 1) + x % 2
  }

  /** A word of n one bits. */
  function Ones(n: nat): nat {
    if n == 0 then 0 else 2 * Ones(n - 1) + 1
  }

  /** ORing into the bits from k up leaves the bits below k alone. */
  lemma {:induction false} OrHigh(a: nat, b: nat, c: nat, k: nat)
    requires b < Shl(1, k)
    ensures Or(Shl(a, k) + b, Shl(c, k)) == Shl(Or(a, c), k) + b
    decreases k
  {
    if k > 0 {
      var x, y, z := Shl(a, k) + b, Shl(c, k), Shl(Or(a, c), k) + b;
      OrHigh(a, b / 2, c, k - 1);
      OrStep(x, y);
      SameBits(Or(x, y), z);
    } else {
      assert b == 0;
    }
  }

  /** A mask of n ones keeps the n low bits. */
  lemma {:induction false} AndOnes(x: nat, n: nat)
    ensures And(x, Ones(n)) == Low(x, n)
    decreases n
  {
    if n > 0 {
      AndOnes(x / 2, n - 1);
      AndStep(x, Ones(n));
      SameBits(And(x, Ones(n)), Low(x, n));
    }
  }

  /** A mask of n ones shifted left by k selects that field in place. */
  lemma {:induction false} AndField(x: nat, k: nat, n: nat)
    ensures And(x, Shl(Ones(n), k)) == Shl(Low(Shr(x, k), n), k)
    decreases k
  {
    if k == 0 {
      AndOnes(x, n);
    } else {
      AndField(x / 2, k - 1, n);
      AndStep(x, Shl(Ones(n), k));
      SameBits(And(x, Shl(Ones(n), k)), Shl(Low(Shr(x, k), n), k));
    }
  }

  /** A mask whose n low bits are all ones keeps every value of at most n bits. */
  lemma {:induction false} AndCovers(x: nat, mask: nat, n: nat)
    requires x < Shl(1, n)
    requires Low(mask, n) == Ones(n)
    ensures And(x, mask) == x
    decreases n
  {
    if n > 0 && x > 0 {
      AndCovers(x / 2, mask / 2, n - 1);
      AndStep(x, mask);
      SameBits(And(x, mask), x);
    }
  }

  // Shifts by 14, the page size and the place of the file type.

  lemma Shl14(x: nat)
    ensures Shl(x, 14) == x * 0x4000
  {
    Shl6(x, 8);
    Shl6(x, 2);
    assert Shl(x, 2) == 2 * Shl(x, 1) == 4 * Shl(x, 0) == 4 * x;
  }

  lemma Shl6(x: nat, n: nat)
    ensures Shl(x, n + 6) == 64 * Shl(x, n)
  {
    assert Shl(x, n + 6) == 2 * Shl(x, n + 5) == 4 * Shl(x, n + 4) == 8 * Shl(x, n + 3);
    assert Shl(x, n + 3) == 2 * Shl(x, n + 2) == 4 * Shl(x, n + 1) == 8 * Shl(x, n);
  }

  lemma ShrDiv14(x: nat)
    ensures Shr(x, 14) == x / 0x4000
  {
    Shr6(x, 8);
    Shr6(x / 64, 2);
    assert x / 64 / 64 == x / 4096;
    assert Shr(x / 4096, 2) == Shr(x / 4096 / 2, 1) == x / 4096 / 2 / 2;
  }

  lemma Shr6(x: nat, n: nat)
    ensures Shr(x, n + 6) == Shr(x / 64, n)
  {
    assert Shr(x, n + 6) == Shr(x / 2, n + 5) == Shr(x / 2 / 2, n + 4) == Shr(x / 2 / 2 / 2, n + 3);
    var y := x / 8;
    assert x / 2 / 2 / 2 == y;
    assert Shr(y, n + 3) == Shr(y / 2, n + 2) == Shr(y / 2 / 2, n + 1) == Shr(y / 2 / 2 / 2, n);
    assert y / 2 / 2 / 2 == x / 64;
  }

  // Words as bytes in memory.

  type byte = b: nat | b < 256

  /** A word of n bytes in memory order, low byte first. */
  function WordBytes(w: nat, n: nat := 8): (b: seq<byte>)
    ensures |b| == n
  {
    if n == 0 then [] else [w % 256] + WordBytes(w / 256, n - 1)
  }

  function WordValue(b: seq<byte>): nat {
    if b == [] then 0 else b[0] + 256 * WordValue(b[1..])
  }

  function Limit(n: nat): nat {
    if n == 0 then 1 else 256 * Limit(n - 1)
  }

  lemma {:induction false} WordRoundTrip(w: nat, n: nat)
    requires w < Limit(n)
    ensures WordValue(WordBytes(w, n)) == w
  {
    if n > 0 {
      WordRoundTrip(w / 256, n - 1);
      assert WordBytes(w, n)[1..] == WordBytes(w / 256, n - 1);
    }
  }
}
