/** Two-dimensional vectors (src/vector.h): a value type with component-wise
    arithmetic, and a mutable cell whose compound assignments update its two
    fields in place. Coordinates are exact reals. */
module Vectors {

  import opened RealFacts

  datatype Vector2 = Vector2(x: real, y: real)
  {
    function Plus(other: Vector2): Vector2 {
      Vector2(x + other.x, y + other.y)
    }

    function Minus(other: Vector2): Vector2 {
      Vector2(x - other.x, y - other.y)
    }

    function Times(scalar: real): Vector2 {
      Vector2(x * scalar, y * scalar)
    }

    function Over(scalar: real): Vector2
      requires scalar != 0.0
    {
      Vector2(x / scalar, y / scalar)
    }

    /** operator==: both coordinates compare equal. */
    predicate Equals(other: Vector2) {
      x == other.x && y == other.y
    }

    /** operator!=: the negation of operator==. */
    predicate NotEquals(other: Vector2) {
      !Equals(other)
    }

    function Dot(other: Vector2): real {
      x * other.x + y * other.y
    }

    function Norm2(): real {
      x * x + y * y
    }

    static function Zeros(): Vector2 {
      Vector2(0.0, 0.0)
    }

    static function Ones(): Vector2 {
      Vector2(1.0, 1.0)
    }
  }

  /** Subtraction undoes addition and vice versa. */
  lemma PlusMinusInverse(a: Vector2, b: Vector2)
    ensures a.Plus(b).Minus(b) == a
    ensures a.Minus(b).Plus(b) == a
    ensures a.Minus(a) == Vector2.Zeros()
  {
  }

  /** Zeros is the additive identity and addition commutes. */
  lemma PlusIdentityCommutes(a: Vector2, b: Vector2)
    ensures a.Plus(Vector2.Zeros()) == a
    ensures a.Plus(b) == b.Plus(a)
  {
  }

  /** Division by a non-zero scalar undoes multiplication by it. */
  lemma TimesOverInverse(a: Vector2, s: real)
    requires s != 0.0
    ensures a.Times(s).Over(s) == a
    ensures a.Over(s).Times(s) == a
  {
  }

  /** Equals is exactly structural equality; NotEquals exactly its negation. */
  lemma EqualsIff(a: Vector2, b: Vector2)
    ensures a.Equals(b) <==> a == b
    ensures a.NotEquals(b) <==> a != b
  {
  }

  /** norm2 is the vector dotted with itself, never negative, zero only at zeros(). */
  lemma Norm2Properties(a: Vector2)
    ensures a.Norm2() == a.Dot(a)
    ensures a.Norm2() >= 0.0
    ensures a.Norm2() == 0.0 <==> a == Vector2.Zeros()
  {
    SumOfSquaresSign(a.x, a.y, a.Norm2());
  }

  /** dot is symmetric and distributes over addition. */
  lemma DotProperties(a: Vector2, b: Vector2, c: Vector2)
    ensures a.Dot(b) == b.Dot(a)
    ensures a.Dot(b.Plus(c)) == a.Dot(b) + a.Dot(c)
    ensures Vector2.Ones().Dot(a) == a.x + a.y
  {
  }

  /** A Vector2 variable updated in place by the compound assignment operators. */
  class Vector2Cell {
    var x: real
    var y: real

    constructor (x0: real, y0: real)
      ensures x == x0 && y == y0
    {
      x := x0;
      y := y0;
    }

    function Value(): Vector2
      reads this
    {
      Vector2(x, y)
    }

    /** operator+= agrees with operator+. */
    method AddAssign(other: Vector2)
      modifies this
      ensures Value() == old(Value()).Plus(other)
    {
      x := x + other.x;
      y := y + other.y;
    }

    /** operator-= agrees with operator-. */
    method SubAssign(other: Vector2)
      modifies this
      ensures Value() == old(Value()).Minus(other)
    {
      x := x - other.x;
      y := y - other.y;
    }

    /** operator*= agrees with operator*. */
    method MulAssign(scalar: real)
      modifies this
      ensures Value() == old(Value()).Times(scalar)
    {
      x := x * scalar;
      y := y * scalar;
    }

    /** operator/= agrees with operator/. */
    method DivAssign(scalar: real)
      requires scalar != 0.0
      modifies this
      ensures Value() == old(Value()).Over(scalar)
    {
      x := x / scalar;
      y := y / scalar;
    }
  }
}
