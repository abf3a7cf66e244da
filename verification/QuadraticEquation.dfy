/** An immutable quadratic equation a*x^2 + b*x + c with a != 0, its derived
    quantities (discriminant, vertex, real and complex roots) and its textual
    renderings in standard, vertex and factored form.

    Arithmetic is exact (Dafny `real`), where the original works on IEEE doubles.
    Two things the original takes from the platform are not computable over
    exact reals and are kept abstract:
    - the square root (Math.Sqrt) is a parameter `sqrt` of every operation that
      uses it, constrained by IsSqrt;
    - the decimal rendering of a non-negative number (double.ToString) is NumStr,
      a string chosen per value about which nothing else is known.
 */
module Library {

  /** The two exceptions of the original, as values. */
  datatype Error =
    | InvalidQuadraticEquation(message: string)
    | ComplexResult(message: string)

  datatype Result<+T> = Success(value: T) | Failure(error: Error)

  datatype Form = Standard | Vertex | Factored

  datatype Complex = Complex(re: real, im: real)

  /** The three standard-form coefficients; they never change once built. */
  datatype Coefficients = Coefficients(A: real, B: real, C: real)

  /** An equation: coefficients with a non-zero leading coefficient. Each of
      the three factories rejects a == 0, and this subset type keeps that
      guarantee for every equation, however it is built. */
  type QuadraticEquation = e: Coefficients | e.A != 0.0 witness Coefficients(1.0, 0.0, 0.0)

  /** What the model asks of the platform's square root. */
  ghost predicate IsSqrt(sqrt: real -> real) {
    forall d :: d >= 0.0 ==> sqrt(d) >= 0.0 && sqrt(d) * sqrt(d) == d
  }

  // ---------------------------------------------------------------------------
  // Factories

  const NotQuadratic := InvalidQuadraticEquation("a is 0")

  function FromStandardForm(a: real, b: real, c: real): (r: Result<QuadraticEquation>)
    ensures r.Failure? <==> a == 0.0
    ensures r.Failure? ==> r.error == NotQuadratic
    ensures r.Success? ==> r.value.A == a && r.value.B == b && r.value.C == c
  {
    if a != 0.0 then Success(Coefficients(a, b, c)) else Failure(NotQuadratic)
  }

  /** a*(x - p)^2 + q in standard form. */
  function FromVertexForm(a: real, p: real, q: real): (r: Result<QuadraticEquation>)
    ensures r.Failure? <==> a == 0.0
    ensures r.Failure? ==> r.error == NotQuadratic
    ensures r.Success? ==> r.value.A == a && P(r.value) == p && Q(r.value) == q
  {
    if a != 0.0 then
      var e: QuadraticEquation := Coefficients(a, -2.0 * a * p, a * (p * p) + q);
      VertexOfVertexForm(a, p, q);
      Success(e)
    else
      Failure(NotQuadratic)
  }

  /** a*(x - x1)*(x - x2) in standard form. */
  function FromFactoredForm(a: real, x1: real, x2: real): (r: Result<QuadraticEquation>)
    ensures r.Failure? <==> a == 0.0
    ensures r.Failure? ==> r.error == NotQuadratic
    ensures r.Success? ==> r.value.A == a && GetValue(r.value, x1) == 0.0 && GetValue(r.value, x2) == 0.0
  {
    if a != 0.0 then
      var e: QuadraticEquation := Coefficients(a, -a * (x1 + x2), a * x1 * x2);
      FactoredValue(a, x1, x2, x1);
      FactoredValue(a, x1, x2, x2);
      Success(e)
    else
      Failure(NotQuadratic)
  }

  // ---------------------------------------------------------------------------
  // Derived quantities

  /** The discriminant: x is a zero exactly when (2Ax + B)^2 equals it, and
      at every x it is (2Ax + B)^2 - 4A*f(x), which fixes its value whatever
      its sign (at the vertex it is -4A*Q, see DeltaAtVertex). */
  function Delta(e: QuadraticEquation): (r: real)
    ensures forall x :: GetValue(e, x) == 0.0 <==> (2.0 * e.A * x + e.B) * (2.0 * e.A * x + e.B) == r
    ensures forall x :: r == (2.0 * e.A * x + e.B) * (2.0 * e.A * x + e.B) - 4.0 * e.A * GetValue(e, x)
  {
    e.B * e.B - 4.0 * e.A * e.C
  }

  /** The abscissa of the vertex, where 2Ax + B vanishes. */
  function P(e: QuadraticEquation): (r: real)
    ensures 2.0 * e.A * r + e.B == 0.0
  {
    -e.B / (2.0 * e.A)
  }

  /** The ordinate of the vertex: the vertex lies on the curve. */
  function Q(e: QuadraticEquation): (r: real)
    ensures r == GetValue(e, P(e))
  {
    -Delta(e) / (4.0 * e.A)
  }

  /** Completing the square: 4A * f(x) == (2Ax + B)^2 - (B^2 - 4AC). */
  function GetValue(e: QuadraticEquation, x: real): (r: real)
    ensures 4.0 * e.A * r == (2.0 * e.A * x + e.B) * (2.0 * e.A * x + e.B) - (e.B * e.B - 4.0 * e.A * e.C)
  {
    e.A * (x * x) + e.B * x + e.C
  }

  // ---------------------------------------------------------------------------
  // Roots

  /** Real roots: two in formula order when Delta > 0, the vertex abscissa when
      Delta == 0, and the complex-result error when Delta < 0. */
  function Roots(e: QuadraticEquation, sqrt: real -> real): (r: Result<seq<real>>)
    requires IsSqrt(sqrt)
    ensures r.Failure? <==> Delta(e) < 0.0
    ensures r.Failure? ==> r.error == ComplexResult("Delta is negative")
    ensures r.Success? ==> |r.value| == (if Delta(e) > 0.0 then 2 else 1)
    ensures r.Success? ==> forall x <- r.value :: GetValue(e, x) == 0.0
    ensures Delta(e) == 0.0 ==> r == Success([P(e)])
    ensures Delta(e) > 0.0 ==> r.value[0] != r.value[1] && (r.value[0] < r.value[1] <==> e.A > 0.0)
  {
    var delta := Delta(e);
    if delta > 0.0 then
      var deltaRoot := sqrt(delta);
      FormulaRootsAreZeros(e, deltaRoot);
      FormulaRootsOrder(e, deltaRoot);
      Success([(-e.B - deltaRoot) / (2.0 * e.A), (-e.B + deltaRoot) / (2.0 * e.A)])
    else if delta == 0.0 then
      Success([P(e)])
    else
      Failure(ComplexResult("Delta is negative"))
  }

  function Add(z: Complex, w: Complex): Complex {
    Complex(z.re + w.re, z.im + w.im)
  }

  function Mul(z: Complex, w: Complex): Complex {
    Complex(z.re * w.re - z.im * w.im, z.re * w.im + z.im * w.re)
  }

  /** Division of a complex number by a real one, component-wise. */
  function DivReal(z: Complex, d: real): Complex
    requires d != 0.0
  {
    Complex(z.re / d, z.im / d)
  }

  function Conjugate(z: Complex): Complex {
    Complex(z.re, -z.im)
  }

  function FromReal(x: real): Complex {
    Complex(x, 0.0)
  }

  /** A*z^2 + B*z + C evaluated in complex arithmetic. */
  function ComplexValue(e: QuadraticEquation, z: Complex): Complex {
    Add(Add(Mul(FromReal(e.A), Mul(z, z)), Mul(FromReal(e.B), z)), FromReal(e.C))
  }

  function Sub(z: Complex, w: Complex): Complex {
    Complex(z.re - w.re, z.im - w.im)
  }

  /** Complex roots: never fails; a single entry when Delta == 0, otherwise two,
      the "minus" branch of the formula first. When Delta >= 0 they are the real
      roots, embedded. */
  function ComplexRoots(e: QuadraticEquation, sqrt: real -> real): (r: seq<Complex>)
    requires IsSqrt(sqrt)
    ensures |r| == if Delta(e) == 0.0 then 1 else 2
    ensures Delta(e) >= 0.0 ==>
      |r| == |Roots(e, sqrt).value| && forall k :: 0 <= k < |r| ==> r[k] == FromReal(Roots(e, sqrt).value[k])
  {
    var delta := Delta(e);
    if delta > 0.0 then
      var deltaRoot := sqrt(delta);
      [FromReal((-e.B - deltaRoot) / (2.0 * e.A)), FromReal((-e.B + deltaRoot) / (2.0 * e.A))]
    else if delta == 0.0 then
      [FromReal(P(e))]
    else
      // the principal square root of a negative real is purely imaginary
      var deltaRoot := Complex(0.0, sqrt(-delta));
      [DivReal(Sub(FromReal(-e.B), deltaRoot), 2.0 * e.A), DivReal(Add(FromReal(-e.B), deltaRoot), 2.0 * e.A)]
  }

  // ---------------------------------------------------------------------------
  // Rendering

  function Abs(r: real): real {
    if r < 0.0 then -r else r
  }

  /** The platform's decimal rendering of a non-negative number: a string
      chosen for that value, the same one every time it is asked for. Nothing
      else is known of it; in particular the model does not promise that
      different values are rendered differently. */
  ghost function NumStr(r: real): string
    requires r >= 0.0
  {
    var s: string :| r >= 0.0; s
  }

  /** A signed number: a prefix of sign characters followed by the magnitude.
      The prefix holds a '-' exactly for a negative number, a '+' exactly for a
      positive one when the plus sign is shown, and a separating space exactly
      for a non-zero number when separated; the space, if any, comes last. */
  ghost function FormatNumber(n: real, separated: bool, showPlusSign: bool): (r: string)
    ensures |NumStr(Abs(n))| <= |r| && r[|r| - |NumStr(Abs(n))|..] == NumStr(Abs(n))
    ensures var pre := r[..|r| - |NumStr(Abs(n))|];
      |pre| == (if n < 0.0 || (n > 0.0 && showPlusSign) then 1 else 0) + (if n != 0.0 && separated then 1 else 0) &&
      (forall k :: 0 <= k < |pre| ==> pre[k] in "+- ") &&
      ('-' in pre <==> n < 0.0) &&
      ('+' in pre <==> n > 0.0 && showPlusSign) &&
      (' ' in pre <==> n != 0.0 && separated) &&
      (|pre| == 2 ==> pre[1] == ' ')
  {
    if n > 0.0 then
      (if showPlusSign then "+" else "") + (if separated then " " else "") + NumStr(Abs(n))
    else if n < 0.0 then
      "-" + (if separated then " " else "") + NumStr(Abs(n))
    else
      NumStr(Abs(n))
  }

  /** The rendering in the given form. Only the factored form of an equation
      with a negative discriminant renders as "Complex roots"; every other
      rendering starts with the leading coefficient A and then a '*' (after a
      space in the factored form). */
  ghost function ToString(e: QuadraticEquation, form: Form, sqrt: real -> real): (r: string)
    requires IsSqrt(sqrt)
    ensures r == "Complex roots" <==> form == Factored && Delta(e) < 0.0
    ensures var lead := FormatNumber(e.A, false, false);
      r != "Complex roots" ==> |lead| + 1 < |r| && forall i :: 0 <= i < |lead| ==> r[i] == lead[i]
    ensures var lead := FormatNumber(e.A, false, false);
      (form != Factored ==> r[|lead|] == '*') &&
      (form == Factored && Delta(e) >= 0.0 ==> r[|lead|] == ' ' && r[|lead| + 1] == '*')
  {
    var lead := FormatNumber(e.A, false, false);
    assert '*' !in "Complex roots";
    match form
    case Standard =>
      var s := lead + "*x^2 " + FormatNumber(e.B, true, true) + "*x " + FormatNumber(e.C, true, true);
      assert s[|lead|] == '*';
      s
    case Vertex =>
      var s := lead + "*(x" + FormatNumber(-e.B, false, true) + ") " + FormatNumber(e.C, true, true);
      assert s[|lead|] == '*';
      s
    case Factored =>
      var roots := Roots(e, sqrt);
      if roots.Failure? then
        "Complex roots"
      else if |roots.value| == 2 then
        FactoredRendering(lead, roots.value[0], roots.value[1])
      else
        FactoredRendering(lead, roots.value[0], roots.value[0])
  }

  /** The factored rendering of A (already rendered as lead) and two roots;
      the last parenthesis is left open. */
  ghost function FactoredRendering(lead: string, first: real, second: real): (r: string)
    ensures |lead| + 1 < |r| && forall i :: 0 <= i < |lead| ==> r[i] == lead[i]
    ensures r[|lead|] == ' ' && r[|lead| + 1] == '*'
  {
    lead + " * (x" + FormatNumber(-first, false, true) + ") * (x" + FormatNumber(-second, false, true)
  }

  /** The parameterless rendering is the standard form. */
  ghost function ToStringDefault(e: QuadraticEquation, sqrt: real -> real): (r: string)
    requires IsSqrt(sqrt)
    ensures r == FormatNumber(e.A, false, false) + "*x^2 " + FormatNumber(e.B, true, true) + "*x " + FormatNumber(e.C, true, true)
  {
    ToString(e, Standard, sqrt)
  }

  // ---------------------------------------------------------------------------
  // Algebra of the derived quantities

  /** Every equation is A*(x - P)^2 + Q, so (P, Q) is its vertex. */
  lemma VertexFormIdentity(e: QuadraticEquation, x: real)
    ensures GetValue(e, x) == e.A * ((x - P(e)) * (x - P(e))) + Q(e)
  {
    var u := 2.0 * e.A * x + e.B;
    assert 2.0 * e.A * (x - P(e)) == u;
  }

  lemma VertexOfVertexForm(a: real, p: real, q: real)
    requires a != 0.0
    ensures var e: QuadraticEquation := Coefficients(a, -2.0 * a * p, a * (p * p) + q);
      P(e) == p && Q(e) == q
  {
    var e: QuadraticEquation := Coefficients(a, -2.0 * a * p, a * (p * p) + q);
    assert Delta(e) == -4.0 * a * q;
  }

  lemma FactoredValue(a: real, x1: real, x2: real, x: real)
    requires a != 0.0
    ensures GetValue(Coefficients(a, -a * (x1 + x2), a * x1 * x2), x) == a * ((x - x1) * (x - x2))
  {
  }

  lemma FormulaRootsAreZeros(e: QuadraticEquation, s: real)
    requires s * s == Delta(e)
    ensures GetValue(e, (-e.B - s) / (2.0 * e.A)) == 0.0
    ensures GetValue(e, (-e.B + s) / (2.0 * e.A)) == 0.0
  {
    var x1 := (-e.B - s) / (2.0 * e.A);
    var x2 := (-e.B + s) / (2.0 * e.A);
    assert 2.0 * e.A * x1 + e.B == -s;
    assert 2.0 * e.A * x2 + e.B == s;
  }

  lemma FormulaRootsOrder(e: QuadraticEquation, s: real)
    requires s > 0.0
    ensures (-e.B - s) / (2.0 * e.A) != (-e.B + s) / (2.0 * e.A)
    ensures (-e.B - s) / (2.0 * e.A) < (-e.B + s) / (2.0 * e.A) <==> e.A > 0.0
  {
    var x1 := (-e.B - s) / (2.0 * e.A);
    var x2 := (-e.B + s) / (2.0 * e.A);
    assert (x2 - x1) * e.A == s;
  }

  lemma RealRootIsComplexRoot(e: QuadraticEquation, x: real)
    ensures ComplexValue(e, FromReal(x)) == FromReal(GetValue(e, x))
  {
  }

  /** On the vertical line through the vertex, f(P + ti) == Q - A*t^2. */
  lemma ComplexValueAboveVertex(e: QuadraticEquation, t: real)
    ensures ComplexValue(e, Complex(P(e), t)) == FromReal(Q(e) - e.A * (t * t))
  {
  }

  /** Every complex root is a zero of A*z^2 + B*z + C. */
  lemma {:induction false} ComplexRootsAreZeros(e: QuadraticEquation, sqrt: real -> real)
    requires IsSqrt(sqrt)
    ensures forall z <- ComplexRoots(e, sqrt) :: ComplexValue(e, z) == Complex(0.0, 0.0)
  {
    var r := ComplexRoots(e, sqrt);
    if Delta(e) >= 0.0 {
      forall k | 0 <= k < |r| ensures ComplexValue(e, r[k]) == Complex(0.0, 0.0) {
        RealRootIsComplexRoot(e, Roots(e, sqrt).value[k]);
      }
    } else {
      ConjugateRoots(e, sqrt);
      var s := sqrt(-Delta(e));
      ConjugatePairIsZero(e, s / (2.0 * e.A), s);
    }
  }

  lemma ConjugatePairIsZero(e: QuadraticEquation, t: real, s: real)
    requires s * s == -Delta(e)
    requires t == s / (2.0 * e.A)
    ensures ComplexValue(e, Complex(P(e), t)) == Complex(0.0, 0.0)
    ensures ComplexValue(e, Complex(P(e), -t)) == Complex(0.0, 0.0)
  {
    VertexHeight(e, t, s);
    ComplexValueAboveVertex(e, t);
    ComplexValueAboveVertex(e, -t);
  }

  /** When (2At)^2 == -Delta, the height A*t^2 above the vertex is Q. */
  lemma VertexHeight(e: QuadraticEquation, t: real, s: real)
    requires s * s == -Delta(e)
    requires t == s / (2.0 * e.A)
    ensures e.A * (t * t) == Q(e)
  {
    assert 2.0 * e.A * t == s;
    assert 4.0 * e.A * (e.A * (t * t)) == s * s;
    DeltaAtVertex(e);
    Solve(4.0 * e.A, e.A * (t * t), -Delta(e));
    Solve(4.0 * e.A, Q(e), -Delta(e));
  }

  /** The discriminant is -4A times the value at the vertex. */
  lemma DeltaAtVertex(e: QuadraticEquation)
    ensures Delta(e) == -4.0 * e.A * Q(e)
  {
    assert Delta(e) == (2.0 * e.A * P(e) + e.B) * (2.0 * e.A * P(e) + e.B) - 4.0 * e.A * GetValue(e, P(e));
  }

  /** With a negative discriminant the two complex roots are conjugates centred
      on P, the one with imaginary part -sqrt(|Delta|)/(2A) first. */
  lemma ConjugateRoots(e: QuadraticEquation, sqrt: real -> real)
    requires IsSqrt(sqrt)
    requires Delta(e) < 0.0
    ensures var r := ComplexRoots(e, sqrt);
      r[0] == Conjugate(r[1]) && r[0].re == P(e) &&
      r[0].im == -sqrt(-Delta(e)) / (2.0 * e.A) && r[0].im != 0.0
  {
    var s := sqrt(-Delta(e));
    assert s > 0.0;
  }

  /** Two numbers with the same square are equal up to sign. */
  lemma SameSquare(t: real, s: real)
    requires t * t == s * s
    ensures t == s || t == -s
  {
    assert (t - s) * (t + s) == 0.0;
  }

  lemma Solve(k: real, x: real, v: real)
    requires k != 0.0 && k * x == v
    ensures x == v / k
  {
  }

  /** Every zero is one of the two formula values. */
  lemma ZeroIsFormulaRoot(e: QuadraticEquation, x: real, s: real)
    requires GetValue(e, x) == 0.0 && s * s == Delta(e)
    ensures x == (-e.B - s) / (2.0 * e.A) || x == (-e.B + s) / (2.0 * e.A)
  {
    var t := 2.0 * e.A * x + e.B;
    assert t * t == s * s;
    SameSquare(t, s);
    if t == s {
      assert 2.0 * e.A * x == -e.B + s;
      Solve(2.0 * e.A, x, -e.B + s);
    } else {
      assert 2.0 * e.A * x == -e.B - s;
      Solve(2.0 * e.A, x, -e.B - s);
    }
  }

  /** x solves the equation exactly when Roots succeeds and lists x: the roots
      are sound and complete, and Roots fails only when there is no real zero. */
  lemma RootsAreExactlyZeros(e: QuadraticEquation, sqrt: real -> real, x: real)
    requires IsSqrt(sqrt)
    ensures GetValue(e, x) == 0.0 <==> Roots(e, sqrt).Success? && x in Roots(e, sqrt).value
  {
    if GetValue(e, x) == 0.0 {
      var t := 2.0 * e.A * x + e.B;
      assert t * t == Delta(e);
      SquareNonNegative(t);
      if Delta(e) == 0.0 {
        ZeroIsFormulaRoot(e, x, 0.0);
        assert x == P(e);
      } else {
        ZeroIsFormulaRoot(e, x, sqrt(Delta(e)));
      }
    }
  }

  lemma SquareNonNegative(t: real)
    ensures t * t >= 0.0
    ensures t != 0.0 ==> t * t > 0.0
  {
    if t < 0.0 {
      assert t * t == (-t) * (-t);
    }
  }

  lemma FactoredDelta(a: real, x1: real, x2: real)
    requires a != 0.0
    ensures Delta(Coefficients(a, -a * (x1 + x2), a * x1 * x2)) == (a * (x1 - x2)) * (a * (x1 - x2))
  {
  }

  /** The only zeros of a factored-form equation are its two factors' roots. */
  lemma FactoredZero(a: real, x1: real, x2: real, x: real)
    requires a != 0.0
    requires GetValue(Coefficients(a, -a * (x1 + x2), a * x1 * x2), x) == 0.0
    ensures x == x1 || x == x2
  {
    FactoredValue(a, x1, x2, x);
    assert (x - x1) * (x - x2) == 0.0;
  }

  /** Building from factored form and solving gives the two roots back, the
      smaller first when a > 0 and the larger first when a < 0, and a double
      root once. */
  lemma FactoredFormRoots(a: real, x1: real, x2: real, sqrt: real -> real)
    requires a != 0.0 && IsSqrt(sqrt)
    ensures var lo := if x1 <= x2 then x1 else x2;
      var hi := if x1 <= x2 then x2 else x1;
      Roots(FromFactoredForm(a, x1, x2).value, sqrt) ==
        Success(if x1 == x2 then [x1] else if a > 0.0 then [lo, hi] else [hi, lo])
  {
    var e := FromFactoredForm(a, x1, x2).value;
    FactoredDelta(a, x1, x2);
    SquareNonNegative(a * (x1 - x2));
    var r := Roots(e, sqrt);
    if x1 == x2 {
      FactoredZero(a, x1, x2, r.value[0]);
    } else {
      assert a * (x1 - x2) != 0.0;
      FactoredZero(a, x1, x2, r.value[0]);
      FactoredZero(a, x1, x2, r.value[1]);
    }
  }

  // ---------------------------------------------------------------------------
  // Properties of the renderings

  /** Changing the sign of a non-zero number only flips its leading sign
      character, when the plus sign is shown. */
  lemma FormatNumberNegation(n: real, separated: bool)
    requires n != 0.0
    ensures var s := FormatNumber(n, separated, true);
      var t := FormatNumber(-n, separated, true);
      |s| > 0 && |t| > 0 && s[1..] == t[1..] &&
      (s[0] == '-' <==> n < 0.0) && (s[0] == '+' <==> n > 0.0) && (t[0] == '-' <==> n > 0.0)
  {
  }

  /** When Delta >= 0 it names A and each root in order, a double root twice, and
      stops after the last root without closing its parenthesis. */
  lemma FactoredRenderingOfRoots(e: QuadraticEquation, sqrt: real -> real)
    requires IsSqrt(sqrt)
    requires Delta(e) >= 0.0
    ensures var roots := Roots(e, sqrt).value;
      var last := if Delta(e) == 0.0 then P(e) else roots[1];
      ToString(e, Factored, sqrt) ==
        FormatNumber(e.A, false, false) + " * (x" + FormatNumber(-roots[0], false, true) + ") * (x" + FormatNumber(-last, false, true)
  {
    var roots := Roots(e, sqrt).value;
    var lead := FormatNumber(e.A, false, false);
    if Delta(e) == 0.0 {
      assert roots == [P(e)];
      assert ToString(e, Factored, sqrt) == FactoredRendering(lead, P(e), P(e));
    } else {
      assert |roots| == 2;
      assert ToString(e, Factored, sqrt) == FactoredRendering(lead, roots[0], roots[1]);
    }
  }

  /** Rendering an equation built from factored form gives back a and the two
      roots, ordered as Roots orders them. */
  lemma FactoredFormRendering(a: real, x1: real, x2: real, sqrt: real -> real)
    requires a != 0.0 && IsSqrt(sqrt)
    ensures var lo := if x1 <= x2 then x1 else x2;
      var hi := if x1 <= x2 then x2 else x1;
      var first := if a > 0.0 then lo else hi;
      var second := if a > 0.0 then hi else lo;
      ToString(FromFactoredForm(a, x1, x2).value, Factored, sqrt) ==
        FormatNumber(a, false, false) + " * (x" + FormatNumber(-first, false, true) + ") * (x" + FormatNumber(-second, false, true)
  {
    var e := FromFactoredForm(a, x1, x2).value;
    FactoredFormRoots(a, x1, x2, sqrt);
    FactoredDelta(a, x1, x2);
    SquareNonNegative(a * (x1 - x2));
    FactoredRenderingOfRoots(e, sqrt);
    if x1 == x2 {
      assert P(e) == x1;
    }
  }

  /** The vertex rendering prints -B and C, so an equation built from vertex
      form (a, p, q) shows 2ap and ap^2 + q, not -p and q. */
  lemma VertexFormRendering(a: real, p: real, q: real, sqrt: real -> real)
    requires a != 0.0 && IsSqrt(sqrt)
    ensures ToString(FromVertexForm(a, p, q).value, Vertex, sqrt) ==
      FormatNumber(a, false, false) + "*(x" + FormatNumber(2.0 * a * p, false, true) + ") " + FormatNumber(a * (p * p) + q, true, true)
  {
  }

  /** 1*x^2 - 2*x + 1: the coefficient B is rendered with a space after its sign. */
  lemma StandardRenderingExample(sqrt: real -> real)
    requires IsSqrt(sqrt)
    ensures ToString(FromStandardForm(1.0, -2.0, 1.0).value, Standard, sqrt) ==
      NumStr(1.0) + "*x^2 - " + NumStr(2.0) + "*x + " + NumStr(1.0)
  {
  }

  /** x^2 - 4 has the roots [-2, 2]. */
  lemma TwoRootsExample(sqrt: real -> real)
    requires IsSqrt(sqrt)
    ensures Roots(FromStandardForm(1.0, 0.0, -4.0).value, sqrt) == Success([-2.0, 2.0])
  {
    var e := FromStandardForm(1.0, 0.0, -4.0).value;
    assert Delta(e) == 16.0;
    assert sqrt(16.0) >= 0.0 && sqrt(16.0) * sqrt(16.0) == 16.0;
    SameSquare(sqrt(16.0), 4.0);
  }

  /** x^2 + 4 has no real root, and the complex pair [-2i, 2i]. */
  lemma ComplexRootsExample(sqrt: real -> real)
    requires IsSqrt(sqrt)
    ensures Roots(FromStandardForm(1.0, 0.0, 4.0).value, sqrt) == Failure(ComplexResult("Delta is negative"))
    ensures ComplexRoots(FromStandardForm(1.0, 0.0, 4.0).value, sqrt) == [Complex(0.0, -2.0), Complex(0.0, 2.0)]
  {
    var e := FromStandardForm(1.0, 0.0, 4.0).value;
    assert Delta(e) == -16.0;
    assert sqrt(16.0) >= 0.0 && sqrt(16.0) * sqrt(16.0) == 16.0;
    SameSquare(sqrt(16.0), 4.0);
    var root := Complex(0.0, sqrt(-Delta(e)));
    assert root == Complex(0.0, 4.0);
    assert ComplexRoots(e, sqrt) == [DivReal(Sub(FromReal(-0.0), root), 2.0), DivReal(Add(FromReal(-0.0), root), 2.0)];
  }

  /** x^2 - 2x + 1 has the single root [1]. */
  lemma DoubleRootExample(sqrt: real -> real)
    requires IsSqrt(sqrt)
    ensures Roots(FromStandardForm(1.0, -2.0, 1.0).value, sqrt) == Success([1.0])
  {
    var e := FromStandardForm(1.0, -2.0, 1.0).value;
    assert Delta(e) == 0.0;
  }
}
