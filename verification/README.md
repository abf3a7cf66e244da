# Quadratic equation: a verified model

This project models the core of TheKarixPL.QuadraticEquation, a small web application that solves and plots quadratic equations.

- `QuadraticEquation.dfy` (module `Library`) models the immutable `QuadraticEquation` value. It covers:
  - the three factories (standard, vertex and factored form), each of which rejects a zero leading coefficient;
  - the discriminant `Delta`, the vertex `P`/`Q` and `GetValue`;
  - the real roots, which fail with the complex-result error when `Delta < 0`;
  - the complex roots;
  - the string renderings built on the sign-aware `FormatNumber`.
- `GraphService.dfy` (module `Services`) models `GenerateGraph`. It paints the two axes into a pixel buffer (a `bool` 2-D array indexed `[x, y]`, like the image) and walks the pixel columns, collecting the line segments of the curve.

Arithmetic is exact (`real`). Two platform services cannot be computed over exact reals, so they stay abstract:
- `Math.Sqrt` is a parameter `sqrt: real -> real` of every operation that needs it. `IsSqrt(sqrt)` requires `sqrt(d) >= 0` and `sqrt(d) * sqrt(d) == d` for every `d >= 0`.
- `double.ToString()` is `NumStr`: a string chosen for each non-negative value, the same every time for that value. Nothing else is known of it. In particular, the model does not promise that different values render differently.

In the source only the factories build an equation (its constructor is private). The model instead makes `QuadraticEquation` the subset type of `Coefficients` with `A != 0`, which keeps the factories' guarantee for every equation, including the ones the examples build directly. The two exceptions are the variants `InvalidQuadraticEquation("a is 0")` and `ComplexResult("Delta is negative")` of `Error`, carried by `Result`.

The model keeps these behaviours of the code:
- `ComplexRoots` returns a single entry when `Delta == 0`.
- The vertex rendering prints `-B` and `C`, not `-P` and `Q`.
- The factored rendering never closes its last parenthesis.
- The standard rendering puts a space after the sign of `B` and `C`, so 1, -2, 1 renders as `1*x^2 - 2*x + 1`.
- The `(int)` cast truncates toward zero.
- The axes are painted into the pixel buffer; only the curve is collected as segments.
- Rows grow downward in the image, so a value `y` is drawn at row `y + height/2`, below the centre for positive `y`: the curve appears upside down.

## Model

| member | source | states |
|---|---|---|
| `Library.FromStandardForm` | TheKarixPL.QuadraticEquation/Library/QuadraticEquation.cs:95-96 | fails with the invalid-equation error exactly when a == 0; otherwise the equation holds (a, b, c) |
| `Library.FromVertexForm` | TheKarixPL.QuadraticEquation/Library/QuadraticEquation.cs:106-107 | fails exactly when a == 0; otherwise A == a and the vertex read back is (p, q) |
| `Library.FromFactoredForm` | TheKarixPL.QuadraticEquation/Library/QuadraticEquation.cs:117-118 | fails exactly when a == 0; otherwise A == a and both x1 and x2 are zeros of GetValue |
| `Library.Delta` | TheKarixPL.QuadraticEquation/Library/QuadraticEquation.cs:26 | x is a zero of GetValue exactly when (2Ax + B)² equals the discriminant; and for every x the discriminant equals (2Ax + B)² − 4A·GetValue(x), which fixes its value for every equation, negative ones included |
| `Library.DeltaAtVertex` | TheKarixPL.QuadraticEquation/Library/QuadraticEquation.cs:26-30 | the discriminant is −4A times the value at the vertex: Delta == −4A·Q |
| `Library.P` | TheKarixPL.QuadraticEquation/Library/QuadraticEquation.cs:28 | 2A·P + B == 0: P is where the curve's slope vanishes |
| `Library.Q` | TheKarixPL.QuadraticEquation/Library/QuadraticEquation.cs:30 | Q == GetValue(P): the vertex lies on the curve |
| `Library.GetValue` | TheKarixPL.QuadraticEquation/Library/QuadraticEquation.cs:125-126 | completing the square: 4A·f(x) == (2Ax + B)² − (B² − 4AC) |
| `Library.VertexFormIdentity` | TheKarixPL.QuadraticEquation/Library/QuadraticEquation.cs:28-30 | every equation equals A·(x − P)² + Q, so (P, Q) is its vertex |
| `Library.VertexOfVertexForm` | TheKarixPL.QuadraticEquation/Library/QuadraticEquation.cs:106-107 | the coefficients (a, −2ap, ap² + q) have vertex (p, q) |
| `Library.FactoredValue` | TheKarixPL.QuadraticEquation/Library/QuadraticEquation.cs:117-118 | the coefficients (a, −a(x1 + x2), a·x1·x2) evaluate to a(x − x1)(x − x2) |
| `Library.FactoredDelta` | TheKarixPL.QuadraticEquation/Library/QuadraticEquation.cs:117-118 | the factored form's discriminant is (a(x1 − x2))² |
| `Library.Roots` | TheKarixPL.QuadraticEquation/Library/QuadraticEquation.cs:36-54 | fails with the complex-result error exactly when Delta < 0; two distinct zeros when Delta > 0, in formula order (ascending exactly when A > 0, not re-sorted); exactly [P] when Delta == 0 |
| `Library.FormulaRootsAreZeros` | TheKarixPL.QuadraticEquation/Library/QuadraticEquation.cs:42-43 | (−B ∓ s)/2A are zeros whenever s² == Delta |
| `Library.FormulaRootsOrder` | TheKarixPL.QuadraticEquation/Library/QuadraticEquation.cs:43 | for s > 0 the "minus" root differs from the "plus" root and is the smaller exactly when A > 0 |
| `Library.RootsAreExactlyZeros` | TheKarixPL.QuadraticEquation/Library/QuadraticEquation.cs:36-54 | x is a zero of GetValue exactly when Roots succeeds and lists x: sound, complete, and failing only when there is no real zero |
| `Library.ZeroIsFormulaRoot` | TheKarixPL.QuadraticEquation/Library/QuadraticEquation.cs:42-43 | every zero is one of the two formula values |
| `Library.FactoredFormRoots` | TheKarixPL.QuadraticEquation/Library/QuadraticEquation.cs:117-118 | solving an equation built from factored form gives back x1 and x2: smaller first when a > 0, larger first when a < 0, and a double root once |
| `Library.FactoredZero` | TheKarixPL.QuadraticEquation/Library/QuadraticEquation.cs:117-118 | a factored-form equation has no zeros other than x1 and x2 |
| `Library.ComplexRoots` | TheKarixPL.QuadraticEquation/Library/QuadraticEquation.cs:59-78 | never fails; one entry when Delta == 0 and two otherwise; when Delta >= 0 they are the real roots, in the same order, with zero imaginary part |
| `Library.ComplexRootsAreZeros` | TheKarixPL.QuadraticEquation/Library/QuadraticEquation.cs:59-78 | every complex root is a zero of A·z² + B·z + C in complex arithmetic |
| `Library.ConjugateRoots` | TheKarixPL.QuadraticEquation/Library/QuadraticEquation.cs:72-76 | when Delta < 0 the two roots are conjugates with real part P, the one with imaginary part −√(−Delta)/(2A) first |
| `Library.ComplexValueAboveVertex` | TheKarixPL.QuadraticEquation/Library/QuadraticEquation.cs:74-75 | at P + ti the polynomial takes the real value Q − A·t² |
| `Library.ConjugatePairIsZero` | TheKarixPL.QuadraticEquation/Library/QuadraticEquation.cs:74-75 | P ± ti are zeros when (2At)² == −Delta |
| `Library.RealRootIsComplexRoot` | TheKarixPL.QuadraticEquation/Library/QuadraticEquation.cs:66 | a real number evaluates in complex arithmetic to its real value |
| `Library.TwoRootsExample` | TheKarixPL.QuadraticEquation/Library/QuadraticEquation.cs:40-43 | x² − 4 has the roots [−2, 2] |
| `Library.ComplexRootsExample` | TheKarixPL.QuadraticEquation/Library/QuadraticEquation.cs:72-76 | x² + 4 has no real root and the complex roots [−2i, 2i] |
| `Library.DoubleRootExample` | TheKarixPL.QuadraticEquation/Library/QuadraticEquation.cs:45-47 | x² − 2x + 1 has exactly the root [1] |
| `Library.NumStr` | TheKarixPL.QuadraticEquation/Library/QuadraticEquation.cs:167-171 | the rendering of a non-negative magnitude: a string fixed per value, otherwise unknown |
| `Library.FormatNumber` | TheKarixPL.QuadraticEquation/Library/QuadraticEquation.cs:164-172 | the output is a sign prefix followed by the rendered magnitude of n. The prefix holds only '+', '-' and ' '. It holds '-' exactly when n < 0, '+' exactly when n > 0 and the plus sign is shown, and ' ' exactly when n != 0 and separated. Its length counts those characters, and a space comes after the sign |
| `Library.FormatNumberNegation` | TheKarixPL.QuadraticEquation/Library/QuadraticEquation.cs:164-169 | with the plus sign shown, negating a non-zero number flips only its leading sign character |
| `Library.ToString` | TheKarixPL.QuadraticEquation/Library/QuadraticEquation.cs:136-162 | the rendering in a given form is the literal "Complex roots" exactly when the form is factored and Delta < 0; every other rendering starts with the rendering of A, followed by '*' (by " *" in the factored form) |
| `Library.ToStringDefault` | TheKarixPL.QuadraticEquation/Library/QuadraticEquation.cs:128-129 | the parameterless rendering is the standard form: A, "*x^2 ", signed B, "*x ", signed C |
| `Library.StandardRenderingExample` | TheKarixPL.QuadraticEquation/Library/QuadraticEquation.cs:141 | 1, −2, 1 renders as 1*x^2 - 2*x + 1 |
| `Library.VertexFormRendering` | TheKarixPL.QuadraticEquation/Library/QuadraticEquation.cs:143 | the vertex rendering of a vertex-form equation (a, p, q) prints 2ap and ap² + q (that is −B and C), not −p and q |
| `Library.FactoredRenderingOfRoots` | TheKarixPL.QuadraticEquation/Library/QuadraticEquation.cs:146-153 | when Delta >= 0 it prints A and each root in order (a double root twice) and ends after the last root without a closing ")" |
| `Library.FactoredFormRendering` | TheKarixPL.QuadraticEquation/Library/QuadraticEquation.cs:144-153 | the factored rendering of a factored-form equation prints a and the two roots it was built from, ordered as Roots orders them |
| `Services.Trunc` | TheKarixPL.QuadraticEquation/Services/GraphService.cs:36-37 | the (int) cast truncates toward zero: within one of the value, never farther from zero |
| `Services.Row` | TheKarixPL.QuadraticEquation/Services/GraphService.cs:36 | the row of column i is the curve value at i − width/2, cut to an integer less than one away and no farther from zero |
| `Services.ColumnSegments` | TheKarixPL.QuadraticEquation/Services/GraphService.cs:35-39 | column i adds the segment from (i, row i + height/2) to (i + 1, row i+1 + height/2) exactly when row i + height/2 < height; no lower bound, y2 unchecked |
| `Services.PathUpTo` | TheKarixPL.QuadraticEquation/Services/GraphService.cs:33-39 | after n columns the path has at most n segments, each starting at one of those columns |
| `Services.PathSegments` | TheKarixPL.QuadraticEquation/Services/GraphService.cs:33-39 | at most one segment per visited column; each starts at a visited column whose row passed the check and spans one column to the right |
| `Services.PathOrdered` | TheKarixPL.QuadraticEquation/Services/GraphService.cs:33-39 | segments appear in strictly increasing column order |
| `Services.HasSegmentAtAppend` | TheKarixPL.QuadraticEquation/Services/GraphService.cs:39 | appending segments keeps the columns already covered and adds those of the new segments |
| `Services.LastColumn` | TheKarixPL.QuadraticEquation/Services/GraphService.cs:33-39 | visiting column n−1 appends only segments for column n−1, one exactly when that column passes the check |
| `Services.PathCoverage` | TheKarixPL.QuadraticEquation/Services/GraphService.cs:38-39 | a visited column has a segment exactly when its row is above the bottom edge |
| `Services.OriginSegmentExample` | TheKarixPL.QuadraticEquation/Services/GraphService.cs:35-39 | for y = x² on a 100 × 100 canvas, column 50 gives the segment (50, 50) to (51, 51) |
| `Services.OffCanvasSegmentExample` | TheKarixPL.QuadraticEquation/Services/GraphService.cs:38-39 | nothing guards the top edge: y = −x² − 1000 still gives a segment starting at row −950 |
| `Services.PaintAxes` | TheKarixPL.QuadraticEquation/Services/GraphService.cs:26-29 | every pixel (width/2, i) with i < height and (i, height/2) with i < width is painted; no other pixel changes |
| `Services.CollectSegments` | TheKarixPL.QuadraticEquation/Services/GraphService.cs:32-41 | the column loop collects exactly PathUpTo over all width columns |
| `Services.GenerateGraph` | TheKarixPL.QuadraticEquation/Services/GraphService.cs:23-44 | a fresh width × height image whose painted pixels are exactly the two axes; the invalid-equation error exactly when a == 0, raised before any segment is collected; otherwise the collected path |

## Left out

- IEEE-754 behaviour: rounding, NaN and infinities, the precision of `Math.Pow` and `Math.Sqrt`, and exact `Delta == 0` comparisons on doubles. The identities are stated over exact reals.
- `Math.Sqrt` and `Complex.Sqrt`: the former is the `sqrt` parameter. The latter is modelled only for the negative reals it is applied to, as the purely imaginary principal root.
- `double.ToString()`, which depends on the culture: it stays abstract as `NumStr`.
- `System.Numerics.Complex`: a complex number is a pair of reals with the few operations used.
- The `default` branch of `ToString(Form)`: it returns "" for a `Form` value outside the three named ones, which a C# enum can hold. The model's `Form` has only the three named values.
- Drawing: the redraw of the accumulated path on every column (`image.Mutate`), `PathBuilder.Build`, and writing the PNG to the output stream. These are calls into an imaging library and output.
- Disposal of the image, and the conversion of integer points to floating-point `PointF`.
- Overflow of the `(int)` cast for values outside the 32-bit range. `Trunc` is unbounded.
- Non-positive image sizes: the image library rejects them. `GenerateGraph`, `PaintAxes` and `CollectSegments` require positive sizes. `ColumnSegments`, `PathUpTo` and the lemmas about them accept any height. For a negative height, though, their `height / 2` rounds down (Dafny's Euclidean division), while C# truncates toward zero. They match the source only for the positive sizes it reaches.
- The web controller, the host bootstrap, the view models and the two exception classes. The exceptions appear as the two `Error` variants with their messages.
