# chem-tools core, modelled in Dafny

This project models the text-processing and exact-arithmetic core of the chem-tools web
application and proves properties of it:

- the chemical **equation balancer** (`components/tools/EquationBalancer.tsx`): the formula
  parser `parseCompound`, the arrow splitter, the element matrix, exact BigInt fractions, the
  Gauss-Jordan `rref`, the choice of one null-space vector scaled to primitive integers, and the
  printed result of `balanceEquation`;
- the formula and equation readers of the reagent tools (`LimitingReagentTool.tsx`,
  `YieldCalculator.tsx`, `StoichiometryTool.tsx`), of `ReactionStoichiometryTool.tsx` (its own
  arrow splitter, species/coefficient regex, coefficient table and `calc`) and of
  `MolarMassTool.tsx` (the global `/([A-Z][a-z]?)(\d*)/g` reader);
- the isotope finder's query box (`IsotopeFinder.tsx`: `normalize` and the `parseQuery`
  cascade of anchored patterns);
- the two element-category normalisers, `normalizeCat` (`utils/categoryMeta.ts`) and
  `normalizeCategory` (`utils/elementsData.ts`), the record conversion `toElement` and the
  ordering of the `elements` list.

Code that rewrites its own state step by step is modelled imperatively: `rref` works on an
`array` of rows, `bigGcd`, `nullspaceVector`'s loops, the species loop of `buildMatrix`, the
molar-mass sums and the coefficient-table loop are methods with loop invariants, each proved
against a specification function. Parsers, splitters and normalisers are functions, with lemmas
relating them to independent descriptions (an explicit rendering that the parser reads back, a
joined text the splitter splits back, a normal form that the normaliser fixes).

Module map: `Text` (string helpers: trim, split, white-space runs, digits, ASCII lower case),
`Wrappers` (`Option`, `Result`), `NumberTheory`, `Fractions`, `Matrix`, `RowReduction`,
`Nullspace`, `Counts` (ordered count tables), `Formula`, `FormulaProperties`, `FormulaRender`,
`Equation`, `Balance`, `SignExample`, `Reagent`, `Reaction`, `SimpleFormula`, `Isotope`,
`Category`, `ElementsData`.

## Model

| member | source | states |
|---|---|---|
| NumberTheory.Abs | components/tools/EquationBalancer.tsx:124 | bigAbs returns a or -a, and never a negative number |
| NumberTheory.GcdOr1 | components/tools/EquationBalancer.tsx:125-129 | the value of bigGcd: positive, divides both arguments, is divided by every common divisor, and is 1 when both arguments are 0 |
| NumberTheory.BigGcd | components/tools/EquationBalancer.tsx:125-129 | the Euclid loop of bigGcd computes GcdOr1: a positive common divisor of both arguments |
| NumberTheory.TDiv | components/tools/EquationBalancer.tsx:145 | BigInt division truncates toward zero, and is exact when the divisor divides the dividend |
| NumberTheory.Lcm | components/tools/EquationBalancer.tsx:130-132 | bigLcm is 0 exactly when an argument is 0, and otherwise a common multiple of both absolute values |
| NumberTheory.LcmLeast | components/tools/EquationBalancer.tsx:130-132 | bigLcm of two positive numbers divides each of their common multiples |
| NumberTheory.Bezout | components/tools/EquationBalancer.tsx:127 | Euclid's gcd is an integer combination of its arguments |
| NumberTheory.CommonDivisorDividesGcd | components/tools/EquationBalancer.tsx:127 | every common divisor of the arguments divides the gcd Euclid's loop computes |
| NumberTheory.GcdQuotientsCoprime | components/tools/EquationBalancer.tsx:144-145 | dividing two numbers by their gcd leaves coprime quotients |
| Fractions.Normalize | components/tools/EquationBalancer.tsx:142-146 | normalize keeps the rational value and yields the normal form (positive denominator, coprime parts); it is zero exactly when the numerator is |
| Fractions.NormalizeIsNormal | components/tools/EquationBalancer.tsx:142-146 | dividing a pair with positive denominator by its bigGcd gives coprime parts of the same value |
| Fractions.MakeFrac | components/tools/EquationBalancer.tsx:137-141 | new Frac(n, d) fails with "Divide by zero" exactly when d is 0, and otherwise denotes n/d |
| Fractions.Zero | components/tools/EquationBalancer.tsx:147 | Frac.zero() denotes 0 |
| Fractions.One | components/tools/EquationBalancer.tsx:148 | Frac.one() denotes 1 |
| Fractions.FromInt | components/tools/EquationBalancer.tsx:258 | new Frac(v, 1n) denotes the integer v |
| Fractions.Add | components/tools/EquationBalancer.tsx:149 | add denotes the sum of the two values |
| Fractions.Sub | components/tools/EquationBalancer.tsx:150 | sub denotes the difference |
| Fractions.Mul | components/tools/EquationBalancer.tsx:151 | mul denotes the product |
| Fractions.Div | components/tools/EquationBalancer.tsx:152 | div fails exactly when the divisor is zero and otherwise denotes the quotient |
| Fractions.Neg | components/tools/EquationBalancer.tsx:153 | neg denotes the negated value |
| Fractions.IsZero | components/tools/EquationBalancer.tsx:154 | isZero holds exactly when the value is 0 |
| Fractions.Eq | components/tools/EquationBalancer.tsx:155 | the field-wise eq is equality of the rational values, because fractions are kept normal |
| Fractions.NormalFormUnique | components/tools/EquationBalancer.tsx:142-146 | two normal fractions with the same value are the same pair |
| Fractions.SameValueSamePair | components/tools/EquationBalancer.tsx:155 | for normal fractions, equal values and equal pairs coincide |
| Matrix.ScaleRow | components/tools/EquationBalancer.tsx:292-293 | dividing a row by a non-zero pivot divides every entry's value by the pivot's |
| Matrix.SubMul | components/tools/EquationBalancer.tsx:301 | `a.sub(f.mul(b))` denotes a - f*b |
| Matrix.SubRow | components/tools/EquationBalancer.tsx:299-302 | each entry of the updated row is the old entry less factor times the pivot-row entry |
| Matrix.Swap | components/tools/EquationBalancer.tsx:287-289 | the row exchange swaps rows i and j and leaves every other row |
| Matrix.ScaleAt | components/tools/EquationBalancer.tsx:291-293 | scaling row r leaves every other row unchanged |
| Matrix.EliminateAt | components/tools/EquationBalancer.tsx:295-304 | the elimination step leaves the pivot row unchanged |
| Matrix.SwapKeepsSolutions | components/tools/EquationBalancer.tsx:287-289 | exchanging two rows keeps the solution set of the system |
| Matrix.ScaleKeepsSolutions | components/tools/EquationBalancer.tsx:291-293 | dividing a row by its non-zero pivot keeps the solution set |
| Matrix.EliminateKeepsSolutions | components/tools/EquationBalancer.tsx:295-304 | subtracting multiples of the pivot row from the other rows keeps the solution set |
| Matrix.EliminatedRowDot | components/tools/EquationBalancer.tsx:295-304 | where the pivot equation holds, every eliminated equation has its old left-hand side |
| RowReduction.FindPivot | components/tools/EquationBalancer.tsx:277-279 | the search stops at the first row at or after r with a non-zero entry in column lead, or at the end when there is none |
| RowReduction.NormalizeRow | components/tools/EquationBalancer.tsx:291-293 | the loop over columns divides row r by its pivot and changes no other row |
| RowReduction.ReduceRow | components/tools/EquationBalancer.tsx:299-302 | the loop over columns replaces row i2 by itself less factor times row r, and changes no other row |
| RowReduction.EliminateColumn | components/tools/EquationBalancer.tsx:295-304 | the loop over rows performs the whole elimination step of column lead |
| RowReduction.SkipColumn | components/tools/EquationBalancer.tsx:280-284 | a column with no non-zero entry below the finished rows keeps the echelon invariant when skipped |
| RowReduction.ScaleKeeps | components/tools/EquationBalancer.tsx:291-293 | dividing the next row by its pivot keeps the invariant and makes the pivot 1 |
| RowReduction.EliminateKeeps | components/tools/EquationBalancer.tsx:295-307 | clearing the pivot column makes it the next unit column of the echelon form |
| RowReduction.Finished | components/tools/EquationBalancer.tsx:274-275 | when rows or columns run out, the matrix is in reduced row echelon form |
| RowReduction.Rref | components/tools/EquationBalancer.tsx:266-311 | rref returns a reduced row echelon form with its pivot columns, with the same solutions as A, and rank at most the number of rows and of columns |
| Nullspace.FreeColumns | components/tools/EquationBalancer.tsx:320-322 | the loop collects exactly the non-pivot columns below nCols, in increasing order |
| Nullspace.LastFreeIsLargest | components/tools/EquationBalancer.tsx:324 | the last collected free column is the largest non-pivot column |
| Nullspace.LastFreeBelow | components/tools/EquationBalancer.tsx:319-324 | the largest non-pivot column below n, or -1 exactly when every column is a pivot column |
| Nullspace.FirstOneFrom | components/tools/EquationBalancer.tsx:334 | `findIndex` of the first entry equal to 1, or -1 when no entry is 1 |
| Nullspace.PivotIsFirstOne | components/tools/EquationBalancer.tsx:331-335 | in reduced echelon form the first entry equal to 1 of pivot row k is its pivot column, and rows after the pivot rows have none |
| Nullspace.SumOthers | components/tools/EquationBalancer.tsx:337-342 | the loop computes the sum over the non-pivot columns of row entry times unknown |
| Nullspace.BackSubstituted | components/tools/EquationBalancer.tsx:343 | setting the pivot unknown to minus that sum solves the row |
| Nullspace.SolveReduced | components/tools/EquationBalancer.tsx:326-344 | back substitution gives a solution of the reduced system with the chosen free unknown 1 and every other free unknown 0 |
| Nullspace.LcmOf | components/tools/EquationBalancer.tsx:347-348 | the folded lcm of positive denominators is positive and divisible by each of them |
| Nullspace.LcmOfLeast | components/tools/EquationBalancer.tsx:347-348 | the folded lcm divides every positive common multiple of the denominators |
| Nullspace.ScaleToIntegers | components/tools/EquationBalancer.tsx:346-349 | the integer vector is lcm times x; it is 0 where x is 0, and positive and primitive where some entry of x is 1 |
| Nullspace.ScaledPrimitive | components/tools/EquationBalancer.tsx:346-349 | a vector with an entry 1 scaled by the lcm of its denominators has no common divisor but 1 |
| Nullspace.Signed | components/tools/EquationBalancer.tsx:350-354 | the vector is negated when no entry is positive and kept otherwise, mixed signs included |
| Nullspace.GcdFold | components/tools/EquationBalancer.tsx:356 | folding bigGcd from a positive start gives a positive common divisor of the start and every entry |
| Nullspace.GcdFoldGreatest | components/tools/EquationBalancer.tsx:356 | every common divisor of a non-zero start and the entries divides the fold |
| Nullspace.Divided | components/tools/EquationBalancer.tsx:358 | each entry becomes its truncated quotient by g as a fraction over 1 |
| Nullspace.ReduceVector | components/tools/EquationBalancer.tsx:350-358 | g is a positive common divisor of the signed vector and the result is that vector divided by g; when the first entry is non-zero g is the greatest such divisor |
| Nullspace.ReduceKeepsPrimitive | components/tools/EquationBalancer.tsx:350-358 | a primitive vector with a positive entry passes the sign flip and gcd division unchanged (g is 1) |
| Nullspace.AllPivotsOnlyTrivial | components/tools/EquationBalancer.tsx:323 | when every column is a pivot column the system has only the zero solution, so the "No free variable" error is justified |
| Nullspace.IntegerSolution | components/tools/EquationBalancer.tsx:346-358 | scaling and reducing a rational solution with free entry 1 gives a primitive integer solution, positive at that entry |
| Nullspace.NullspaceVector | components/tools/EquationBalancer.tsx:314-359 | "Empty matrix." exactly for zero rows; "No free variable" only when zero is the sole solution; otherwise an integer solution of A with a positive entry, no common divisor, positive at the last free column and zero at the other free columns |
| Nullspace.ChosenVector | components/tools/EquationBalancer.tsx:319-358 | the vector the steps compute solves A, is integral and primitive, and is the last-free-column choice |
| Counts.Keys | components/tools/EquationBalancer.tsx:191 | Object.keys of a count map: one key per entry, in insertion order |
| Counts.Get | components/tools/EquationBalancer.tsx:169 | `map[k] \|\| 0`: 0 for an absent key |
| Counts.Add | components/tools/EquationBalancer.tsx:168-170 | applyCount raises the count of k by n and leaves every other count |
| Counts.AddKeys | components/tools/EquationBalancer.tsx:168-170 | a new key is appended after the existing keys; an existing key keeps its place |
| Counts.AddKeepsDistinct | components/tools/EquationBalancer.tsx:168-170 | applyCount never creates a duplicate key |
| Counts.MergeKeys | components/tools/EquationBalancer.tsx:191-193 | after closing a group the enclosing scope has the keys of both scopes and no others |
| Counts.MergeGet | components/tools/EquationBalancer.tsx:191-193 | closing a group adds multiplier times each count of the group to the enclosing scope |
| Counts.MergeKeepsDistinct | components/tools/EquationBalancer.tsx:191-193 | merging keeps the keys of the enclosing scope distinct |
| Formula.Input | components/tools/LimitingReagentTool.tsx:19 | the balancer scans its input as given; the other copies scan it with all white space deleted |
| Formula.SymbolLength | components/tools/EquationBalancer.tsx:198-202 | `/[A-Z][a-z]?/y` matches two characters exactly when a lower-case letter follows the capital, else one |
| Formula.Multiplier | components/tools/EquationBalancer.tsx:204-206 | the count after a symbol or `)` is 1 when no digit follows |
| Formula.Finish | components/tools/EquationBalancer.tsx:224-225 | the balancer and the strict copies succeed exactly when one scope is left and return it; the molarMass loop returns the bottom scope whenever one exists |
| Formula.Step | components/tools/EquationBalancer.tsx:172-222 | each token moves the scan strictly forward |
| Formula.ReadMultiplier | components/tools/EquationBalancer.tsx:183-186 | the sticky digit match ends after the digit run, and the multiplier is the run's decimal value, 1 when it is empty |
| Formula.MergeInto | components/tools/EquationBalancer.tsx:191-193 | the `Object.entries` loop computes the merge of the group into its scope |
| Formula.CloseGroup | components/tools/EquationBalancer.tsx:180-195 | the `)` branch performs the scan step for `)` (including "Mismatched parentheses" and the undefined-scope TypeError) |
| Formula.ReadElement | components/tools/EquationBalancer.tsx:197-210 | the element branch performs the scan step for a capital letter |
| Formula.ScanToken | components/tools/LimitingReagentTool.tsx:26-60 | one pass of the loop performs the scan step of its dialect |
| Formula.ParseFormula | components/tools/EquationBalancer.tsx:163-226 | the loop computes the recursive scan of the dialect (parseCompound, parseFormula, or molarMass's counting loop) |
| FormulaProperties.StripSpaceOccurrences | components/tools/LimitingReagentTool.tsx:19 | deleting white space keeps every other character as often as before |
| FormulaProperties.StepTail | components/tools/EquationBalancer.tsx:172-222 | after its first character a token holds only digits, or the lower-case second letter of a symbol |
| FormulaProperties.CloseNext | components/tools/EquationBalancer.tsx:180-186 | a `)` token ends after the digit run that follows it |
| FormulaProperties.SymbolNext | components/tools/EquationBalancer.tsx:198-207 | a symbol token ends after the symbol and the digit run after it |
| FormulaProperties.OtherNext | components/tools/EquationBalancer.tsx:175-179 | every other accepted token is one character: `(` or a character the dialect skips |
| FormulaProperties.StepDepth | components/tools/EquationBalancer.tsx:175-195 | `(` pushes a scope, `)` pops one, and every other token keeps the depth |
| FormulaProperties.StepBalance | components/tools/EquationBalancer.tsx:175-195 | the depth changes by the parentheses the token consumes |
| FormulaProperties.ScanBalance | components/tools/EquationBalancer.tsx:172-224 | a successful strict scan from a position ends with one scope, so the remaining parentheses make up the current depth |
| FormulaProperties.ParsedFormulaIsBalanced | components/tools/EquationBalancer.tsx:224 | parseCompound and the strict parseFormula succeed only when `(` and `)` occur equally often |
| FormulaProperties.StepPlaced | components/tools/EquationBalancer.tsx:172-222 | every character a token consumes stands where the scanner accepts it |
| FormulaProperties.ScanPlaced | components/tools/EquationBalancer.tsx:172-224 | every character after the position of a successful scan is placed |
| FormulaProperties.ParsedFormulaIsPlaced | components/tools/EquationBalancer.tsx:222 | in an accepted formula each digit follows a symbol, a digit or `)`, and each lower-case letter follows a capital; anything else is an unexpected token |
| FormulaProperties.StripSpaceKeeps | components/tools/LimitingReagentTool.tsx:19 | a character other than white space survives the deletion of white space |
| FormulaProperties.StrictRejectsPlus | components/tools/LimitingReagentTool.tsx:45-59 | the white-space-stripping copies throw on `+`, which parseCompound skips |
| FormulaProperties.BalancerScanIsStrictScan | components/tools/LimitingReagentTool.tsx:26-60 | on text without white space and `+` the balancer's scan and the strict scan agree |
| FormulaProperties.StrictIsBalancerOnStrippedText | components/tools/LimitingReagentTool.tsx:18-63 | on a formula without `+`, parseFormula is parseCompound applied to the formula with its white space deleted |
| FormulaProperties.LenientScanAgrees | components/tools/ReactionStoichiometryTool.tsx:46-77 | where a strict scan succeeds, the lenient scan from the same point gives the same result |
| FormulaProperties.LenientExtendsStrict | components/tools/ReactionStoichiometryTool.tsx:36-79 | whatever parseFormula accepts, molarMass's counting loop reads the same way |
| FormulaProperties.StepKeepsDistinct | components/tools/EquationBalancer.tsx:168-193 | a token keeps the keys of every open scope distinct |
| FormulaProperties.CloseStack | components/tools/EquationBalancer.tsx:188-193 | after `)` the bottom scope is popped to an empty stack, or the group is merged into its enclosing scope with the multiplier |
| FormulaProperties.SymbolStack | components/tools/EquationBalancer.tsx:197-208 | a symbol token adds its count to the innermost scope only |
| FormulaProperties.ScanKeepsDistinct | components/tools/EquationBalancer.tsx:172-225 | a successful scan returns a scope with distinct keys |
| FormulaProperties.ParsedCountsAreDistinct | components/tools/EquationBalancer.tsx:163-226 | a parsed count map names each symbol once |
| FormulaRender.CountReadBack | components/tools/EquationBalancer.tsx:204-207 | a written count is read back as its value, or as 1 when it is omitted |
| FormulaRender.AtomStep | components/tools/EquationBalancer.tsx:197-209 | a written symbol with its count is one token that adds that count of that symbol to the innermost scope |
| FormulaRender.CloseStep | components/tools/EquationBalancer.tsx:180-194 | a written `)` with its multiplier merges the inner scope, multiplied, into the enclosing one |
| FormulaRender.ScanPart | components/tools/EquationBalancer.tsx:172-223 | scanning a written part adds its tally to the innermost scope and leaves the enclosing scopes alone |
| FormulaRender.ScanParts | components/tools/EquationBalancer.tsx:172-223 | scanning written parts adds their tally to the innermost scope |
| FormulaRender.RenderNoSpace | components/tools/LimitingReagentTool.tsx:19 | a written formula has no white space, so the stripping copies scan it unchanged |
| FormulaRender.ParseRendered | components/tools/EquationBalancer.tsx:163-226 | every copy of the parser reads a written formula back as the count map its structure denotes: counts default to 1, groups are multiplied, repeated symbols are summed |
| FormulaRender.TallyPartCount | components/tools/EquationBalancer.tsx:191-193 | the tally of a part adds to each symbol the number of its atoms in the part, multipliers applied |
| FormulaRender.TallyPartsCount | components/tools/EquationBalancer.tsx:191-193 | the tally of a sequence of parts adds to each symbol its atom count |
| FormulaRender.TallyPartsDistinct | components/tools/EquationBalancer.tsx:168-170 | tallying keeps keys distinct |
| FormulaRender.ParseCountsAtoms | components/tools/EquationBalancer.tsx:163-226 | the parsed count of every symbol of a written formula is the number of its atoms |
| Equation.ArrowAt | components/tools/EquationBalancer.tsx:230 | an arrow match starts at i exactly when the character is `=` or `→` or begins `->`, and is at most two characters long |
| Equation.SplitFrom | components/tools/EquationBalancer.tsx:231 | the arrow split from a position yields at least one piece |
| Equation.ArrowParts | components/tools/EquationBalancer.tsx:231 | `eq.split(arrow)` yields at least one piece |
| Equation.SplitFromOne | components/tools/EquationBalancer.tsx:231 | the split is the one remaining piece exactly when no arrow starts after the matcher's position |
| Equation.ArrowPartsOne | components/tools/EquationBalancer.tsx:231 | the split is the whole text, alone, exactly when no arrow occurs in it |
| Equation.ArrowPartsOfTwo | components/tools/EquationBalancer.tsx:231 | two arrow-free texts around one accepted arrow split back into those two texts |
| Equation.TrimNonEmpty | components/tools/EquationBalancer.tsx:233-234 | trimming and dropping empty pieces never lengthens the list |
| Equation.TrimNonEmptyBare | components/tools/EquationBalancer.tsx:233-234 | pieces without `+`, trimmed and filtered, are non-empty, unpadded and plus-free |
| Equation.ChunksAreBare | components/tools/EquationBalancer.tsx:233-234 | every species of a side is non-empty, has no white space at its ends and no plus sign |
| Equation.ChunksOfJoin | components/tools/EquationBalancer.tsx:233-234 | species joined by " + " and padded with white space split back into the same species |
| Equation.SplitArrow | components/tools/EquationBalancer.tsx:229-237 | "Could not find a single reaction arrow." exactly when the split does not give two pieces; success gives two non-empty species lists |
| Equation.SplitArrowSpecies | components/tools/EquationBalancer.tsx:233-236 | every returned species is non-empty, unpadded and plus-free |
| Equation.SplitArrowOfJoin | components/tools/EquationBalancer.tsx:229-237 | two species lists written as "A + B -> C" with any accepted arrow split back into the same lists |
| Equation.DashAt | components/tools/EquationBalancer.tsx:364 | a match of `\s+-\s+(?=[A-Za-z(])` spans at least three characters and is followed by a character |
| Equation.SanitizeKeeps | components/tools/EquationBalancer.tsx:364 | the dash rewrite changes white space, dashes and plus signs only: every other character survives, in order |
| Equation.SanitizeIdentity | components/tools/EquationBalancer.tsx:364 | text in which no dash is followed by white space ("->" in particular) is left unchanged |
| Balance.BelowIrreflexive | components/tools/EquationBalancer.tsx:247 | the code-unit order of `sort()` is irreflexive |
| Balance.BelowTransitive | components/tools/EquationBalancer.tsx:247 | the code-unit order is transitive |
| Balance.BelowTotal | components/tools/EquationBalancer.tsx:247 | any two different strings are ordered one way or the other |
| Balance.IncreasingUnique | components/tools/EquationBalancer.tsx:245-247 | two increasing lists of the same strings are equal, so sorting a set has one outcome |
| Balance.Insert | components/tools/EquationBalancer.tsx:245-247 | placing a key in an increasing list keeps it increasing and adds exactly that key |
| Balance.SortDistinct | components/tools/EquationBalancer.tsx:245-247 | `Array.from(new Set(keys)).sort()` is increasing and holds exactly the keys |
| Balance.AllKeys | components/tools/EquationBalancer.tsx:246 | flatMap of Object.keys holds exactly the symbols some species contains |
| Balance.Elements | components/tools/EquationBalancer.tsx:245-247 | the matrix rows: every element symbol of every species, once, in code-unit order |
| Balance.ParseSpecies | components/tools/EquationBalancer.tsx:241-242 | `species.map(parseCompound)` succeeds exactly when every species parses, with their count maps; otherwise it fails with the error of the first species that does not parse |
| Balance.FillMatrix | components/tools/EquationBalancer.tsx:244-262 | the rows are the sorted elements, and cell (r, c) holds species c's count of element r, negated for products |
| Balance.CountVector | components/tools/EquationBalancer.tsx:256 | the count of an element in each species, 0 where it is absent |
| Balance.RowValues | components/tools/EquationBalancer.tsx:254-260 | a matrix row is the reactant counts followed by the negated product counts of its element |
| Balance.RowBalance | components/tools/EquationBalancer.tsx:249-260 | a row's equation is the element's atoms on the left less its atoms on the right |
| Balance.AbsentElement | components/tools/EquationBalancer.tsx:245-247 | an element no species contains has no atoms on either side |
| Balance.SolvesIffConserved | components/tools/EquationBalancer.tsx:239-262 | a vector solves the matrix exactly when every element is conserved, elements without a row included |
| Balance.NoSolutionMeansZero | components/tools/EquationBalancer.tsx:323 | when zero is the only solution of the matrix, no non-zero coefficients conserve every element |
| Balance.Terms | components/tools/EquationBalancer.tsx:376-380 | one term per species: the absolute coefficient and a space before the species, nothing when it is 1 |
| Balance.VectorBalances | components/tools/EquationBalancer.tsx:367-371 | an integer primitive null-space vector with a positive entry conserves every element of the species |
| Balance.BalancingVector | components/tools/EquationBalancer.tsx:362-371 | the shared steps fail at the arrow split, at a species, with an empty matrix (no element) or with no free variable (only zero conserves) exactly as stated; on success the coefficients balance the species and are the last-free-column choice |
| Balance.BalanceEquation | components/tools/EquationBalancer.tsx:362-387 | balanceEquation as written: the same errors and never a sign error (it has no sign check), and on success the equation written with the absolute values of the chosen balancing coefficients |
| Balance.Printed | components/tools/EquationBalancer.tsx:378 | the printed coefficients are the absolute values |
| Balance.PrintedNonNegative | components/tools/EquationBalancer.tsx:378 | a vector without negative entries prints as itself |
| Balance.BalanceEquationChecked | components/tools/EquationBalancer.tsx:351-353 | the corrected balancer: a vector with entries of both signs is reported (only when a non-zero conserving vector exists), and any text it returns is balanced by the printed coefficients |
| SignExample.InputConserved | components/tools/EquationBalancer.tsx:239-262 | for "O2 -> H2O + H2", coefficients conserve every element exactly when x1 = 2·x0 and x2 = -x1 |
| SignExample.InputCoefficients | components/tools/EquationBalancer.tsx:346-358 | the only primitive balancing vectors of that input with a positive entry are (1, 2, -2) and (-1, -2, 2) |
| SignExample.InputWritten | components/tools/EquationBalancer.tsx:374-386 | either vector is written "O2 → 2 H2O + 2 H2" |
| SignExample.MixedSignsPrintUnbalanced | components/tools/EquationBalancer.tsx:353 | whatever balanceEquation answers for that input is "O2 → 2 H2O + 2 H2", whose printed coefficients do not conserve hydrogen |
| SignExample.InputIsAnswered | components/tools/EquationBalancer.tsx:362-368 | the input splits, parses, has element rows and a non-zero conserving vector |
| SignExample.NoErrorApplies | components/tools/EquationBalancer.tsx:362-368 | with those facts, none of the errors balanceEquation promises can be the answer for the input |
| SignExample.AnswerForInput | components/tools/EquationBalancer.tsx:362-387 | balanceEquation on "O2 -> H2O + H2" succeeds, and its text is the unbalanced "O2 → 2 H2O + 2 H2" |
| SignExample.CheckedRefusesInput | components/tools/EquationBalancer.tsx:351-353 | the corrected balancer cannot return any text for that input |
| Reagent.ReadCoefficient | components/tools/LimitingReagentTool.tsx:91-94 | the formula read from a chunk is never longer than the chunk |
| Reagent.ReadUncounted | components/tools/LimitingReagentTool.tsx:94 | a chunk that does not start with a digit is read with coefficient 1 and itself as formula |
| Reagent.ReadCounted | components/tools/LimitingReagentTool.tsx:92-93 | "k f" and "kf" are read as coefficient k and formula f |
| Reagent.ReadCoefficientAt | components/tools/LimitingReagentTool.tsx:92-93 | a chunk with a leading digit run and no line break after it is read as that number and the trimmed rest |
| Reagent.ParseSide | components/tools/LimitingReagentTool.tsx:87-96 | one species per trimmed non-empty chunk between plus signs |
| Reagent.ParseEquation | components/tools/LimitingReagentTool.tsx:80-104 | "Provide exactly one reaction arrow" exactly when the arrow split does not give two pieces; success gives a species on each side |
| Reagent.ReadAll | components/tools/LimitingReagentTool.tsx:91-95 | each chunk is read by itself |
| Reagent.SameSplitAsBalancer | components/tools/LimitingReagentTool.tsx:80-104 | the reagent tools accept exactly the equations the balancer's splitArrow accepts, fail with the same error otherwise, and read the same species |
| Reagent.Coefficients | components/tools/EquationBalancer.tsx:377-379 | each species paired with the absolute value of its coefficient |
| Reagent.TermReadsBack | components/tools/LimitingReagentTool.tsx:92-94 | a balancer term is read back as the absolute coefficient and the species |
| Reagent.TermsReadBack | components/tools/LimitingReagentTool.tsx:87-96 | a side of balancer terms is read back term by term |
| Reagent.ReadsBalancedEquation | components/tools/LimitingReagentTool.tsx:98-104 | the reagent tools read the balancer's printed answer back as the same species with the printed coefficients |
| Reagent.MissingIff | components/tools/LimitingReagentTool.tsx:69-72 | exactly the symbols of the count map that have no atomic weight are reported missing |
| Reagent.WeighCounts | components/tools/LimitingReagentTool.tsx:65-75 | the loop over Object.entries sums weight times count over the weighed symbols and lists the others in entry order |
| Reagent.MassAdd | components/tools/LimitingReagentTool.tsx:22-24 | adding n atoms of a symbol adds n times its weight to the mass |
| Reagent.MassMerge | components/tools/LimitingReagentTool.tsx:39-42 | closing a group adds multiplier times the group's mass to the enclosing scope |
| Reagent.MolarMass | components/tools/LimitingReagentTool.tsx:65-75 | molarMass throws exactly when parseFormula does, and otherwise returns the mass and missing symbols of the parsed counts |
| Reagent.AnalyseFormula | components/tools/StoichiometryTool.tsx:147-156 | a rejected formula gives no counts, no mass and no missing symbols; an accepted one its counts, their mass and their missing symbols |
| Reaction.ReactionArrowAt | components/tools/ReactionStoichiometryTool.tsx:21 | an arrow of `/->\|→/` starts at i exactly when the character is `→` or begins `->` |
| Reaction.ReactionParts | components/tools/ReactionStoichiometryTool.tsx:21 | `reaction.split(/->\|→/)` yields at least one piece |
| Reaction.ReactionPartsNone | components/tools/ReactionStoichiometryTool.tsx:21 | text without an arrow is one piece, itself |
| Reaction.ReactionPartsCons | components/tools/ReactionStoichiometryTool.tsx:21 | an arrow splits off the arrow-free text before it, and the rest is split on its own |
| Reaction.DecompositionShape | components/tools/ReactionStoichiometryTool.tsx:27 | every way for `/^(\d+)?\s*([A-Za-z0-9()^+\-]+)$/` to match takes at most the digit run, and the digit group determines the rest |
| Reaction.MatchSpeciesIsLongestMatch | components/tools/ReactionStoichiometryTool.tsx:27 | the match reported is a way for the pattern to match, with the longest digit group (the greedy choice) |
| Reaction.MatchSpeciesNone | components/tools/ReactionStoichiometryTool.tsx:27-28 | no match is reported exactly when the pattern cannot match |
| Reaction.ReactionSide | components/tools/ReactionStoichiometryTool.tsx:24-30 | parseSide gives one entry per piece between plus signs, empty pieces included |
| Reaction.ParseReaction | components/tools/ReactionStoichiometryTool.tsx:20-33 | two empty lists exactly when there is no second piece or a trimmed side is empty; otherwise one entry per plus-separated piece of each trimmed side |
| Reaction.MatchSpeciesDecomposes | components/tools/ReactionStoichiometryTool.tsx:27 | the species reported is a way for the pattern to match: digits, white space, then a formula of class characters |
| Reaction.ReadWrittenSide | components/tools/ReactionStoichiometryTool.tsx:24-30 | species written as "A + 3B" are read back as the same list |
| Reaction.ParseTwoSides | components/tools/ReactionStoichiometryTool.tsx:20-33 | two arrow-free sides without padding, joined by " -> ", are split back into those two sides |
| Reaction.ExtraArrowsIgnored | components/tools/ReactionStoichiometryTool.tsx:21 | pieces after a second arrow are ignored |
| Reaction.MatchFormula | components/tools/ReactionStoichiometryTool.tsx:27-29 | a formula of class characters not starting with a digit is matched whole, with coefficient 1 |
| Reaction.MatchCountedFormula | components/tools/ReactionStoichiometryTool.tsx:27-29 | a count glued to such a formula is matched as the digit group |
| Reaction.ReadWrittenSpecies | components/tools/ReactionStoichiometryTool.tsx:24-30 | a species written with its count glued on is read back as itself |
| Reaction.ParseWrittenReaction | components/tools/ReactionStoichiometryTool.tsx:20-33 | two species lists written as "A + 3B -> 2C" are parsed back into the same lists |
| Reaction.LenientOnlyTypeErrors | components/tools/ReactionStoichiometryTool.tsx:46-77 | molarMass's counting loop never throws an Error, only the TypeError of a `)` that pops the bottom scope |
| Reaction.LenientUnclosed | components/tools/ReactionStoichiometryTool.tsx:46-79 | with no `)` left, the result is the bottom scope as it stands |
| Reaction.UnclosedGroupDropped | components/tools/ReactionStoichiometryTool.tsx:79 | atoms inside a group that is never closed are lost: "(H2O" counts nothing |
| Reaction.ReactionMolarMass | components/tools/ReactionStoichiometryTool.tsx:36-87 | molarMass fails only with the TypeError, and otherwise sums weight times count over the symbols that have a weight |
| Reaction.Assign | components/tools/ReactionStoichiometryTool.tsx:116 | `coeffMap[k] = v` sets an own property, except that the `__proto__` setter ignores a number |
| Reaction.TableKeys | components/tools/ReactionStoichiometryTool.tsx:114-117 | the table's own keys are the listed formulas other than `__proto__` |
| Reaction.TableLastWins | components/tools/ReactionStoichiometryTool.tsx:114-117 | a formula listed more than once has the coefficient of its last listing |
| Reaction.BuildCoefficients | components/tools/ReactionStoichiometryTool.tsx:114-117 | the forEach builds the table |
| Reaction.Lookup | components/tools/ReactionStoichiometryTool.tsx:119-120 | `coeffMap[k]` is an own number exactly for the table's keys, undefined exactly for other keys that are not Object.prototype members, and inherited otherwise |
| Reaction.Calc | components/tools/ReactionStoichiometryTool.tsx:112-182 | calc as written: null for a falsy coefficient, a non-finite amount, a throwing molar mass or an unknown given unit; otherwise the coefficients and molar masses |
| Reaction.CalcOutcomeCoefficients | components/tools/ReactionStoichiometryTool.tsx:119-121 | a result's coefficients are the truthy lookups of the two species in the table |
| Reaction.CalcUsesLastCoefficient | components/tools/ReactionStoichiometryTool.tsx:114-121 | for a listed species a result carries the non-zero coefficient of its last listing |
| Reaction.InheritedCoefficientAnswered | components/tools/ReactionStoichiometryTool.tsx:119-121 | a given species "constructor" that the reaction does not list still gets a result, with the inherited function as its coefficient |
| Reaction.UnlistedNotKey | components/tools/ReactionStoichiometryTool.tsx:114-117 | a formula the reaction does not list is not an own key of the table |
| Reaction.ConstructorInherited | components/tools/ReactionStoichiometryTool.tsx:119 | a table without an own "constructor" answers the inherited function for it |
| Reaction.ConstructorParses | components/tools/ReactionStoichiometryTool.tsx:46-79 | "constructor" is accepted by the counting loop and counts no atoms |
| Reaction.CalcOwnIsListed | components/tools/ReactionStoichiometryTool.tsx:119-121 | with own-property lookups every result has positive coefficients of listed species, and for names that are not Object.prototype members nothing else changes |
| Reaction.CalcOwnAgrees | components/tools/ReactionStoichiometryTool.tsx:119-121 | the corrected calculation answers only for own keys, and then as the original does |
| Reaction.CalcOwn | components/tools/ReactionStoichiometryTool.tsx:112-182 | the corrected calculation as a method |
| SimpleFormula.Count | components/tools/MolarMassTool.tsx:15 | an empty digit group counts 1 |
| SimpleFormula.NextUpper | components/tools/MolarMassTool.tsx:9-12 | the place where the next match can start is at or after lastIndex and holds an uppercase letter unless it is the end |
| SimpleFormula.NextUpperFirst | components/tools/MolarMassTool.tsx:9-12 | no uppercase letter is passed over on the way there |
| SimpleFormula.Exec | components/tools/MolarMassTool.tsx:12 | a match found by exec moves lastIndex forward, within the text |
| SimpleFormula.MatchAt | components/tools/MolarMassTool.tsx:9 | a match at an uppercase letter consumes at least that letter |
| SimpleFormula.MatchAtParts | components/tools/MolarMassTool.tsx:9 | the match is the symbol of one or two letters followed by the whole digit run |
| SimpleFormula.ExecNone | components/tools/MolarMassTool.tsx:12 | exec returns null exactly when no uppercase letter is left from lastIndex on |
| SimpleFormula.ExecLeftmostLongest | components/tools/MolarMassTool.tsx:9-12 | exec returns the match of `/([A-Z][a-z]?)(\d*)/` at the first possible start, each group as long as possible, and lastIndex moves past it |
| SimpleFormula.LongestAtUnique | components/tools/MolarMassTool.tsx:9 | at a given start the pattern has one greedy match |
| SimpleFormula.MatchesFrom | components/tools/MolarMassTool.tsx:12-17 | the loop sees no match exactly when the first exec is null |
| SimpleFormula.MatchesNext | components/tools/MolarMassTool.tsx:12-17 | one exec contributes its match, then the loop continues from the new lastIndex |
| SimpleFormula.SimpleParseNone | components/tools/MolarMassTool.tsx:18 | parseFormula returns null exactly when the formula has no uppercase letter |
| SimpleFormula.ParseSimpleFormula | components/tools/MolarMassTool.tsx:7-19 | the exec loop with its `matched` flag returns the tally of all matches, or null when nothing matched |
| SimpleFormula.AddAllCounts | components/tools/MolarMassTool.tsx:16 | `map[sym] = (map[sym] \|\| 0) + count` adds up: each key holds its start value plus the counts of its matches, and the keys are the old ones and the matched symbols |
| SimpleFormula.SimpleParseCounts | components/tools/MolarMassTool.tsx:7-19 | parseFormula's map has a key for each matched symbol and no other, holding the sum of that symbol's counts |
| SimpleFormula.AsMatches | components/tools/MolarMassTool.tsx:9 | a flat formula written out gives one match per written symbol |
| SimpleFormula.TallyFlat | components/tools/MolarMassTool.tsx:16 | on a flat formula the tally of the matches is the formula's own count map |
| SimpleFormula.FlatMatches | components/tools/MolarMassTool.tsx:9-17 | exec over a written flat formula returns its symbols and counts in order |
| SimpleFormula.FlatRoundTrip | components/tools/MolarMassTool.tsx:7-19 | a formula without groups, written out, is read back as its counts: the same map the stack-based readers give for it |
| SimpleFormula.LenientAgrees | components/tools/MolarMassTool.tsx:7-19 | without parentheses, the lenient counter of components/tools/ReactionStoichiometryTool.tsx:36-79 gives this reader's map for the formula without white space (the empty map where this reader gives null) |
| SimpleFormula.PhosphateIgnoresGroup | components/tools/MolarMassTool.tsx:6-19 | "Ba3(PO4)2" is read as Ba 3, P 1, O 4: the group multiplier is not applied |
| Isotope.NormalizeSingleSpaced | components/tools/IsotopeFinder.tsx:17-19 | after normalize every run of white space is one plain space |
| Isotope.NormalizeFixes | components/tools/IsotopeFinder.tsx:17-19 | a query with single plain spaces and none at its ends is left as it is |
| Isotope.NormalizeIdempotent | components/tools/IsotopeFinder.tsx:17-19 | normalizing twice is normalizing once |
| Isotope.NormalizeKeeps | components/tools/IsotopeFinder.tsx:17-19 | normalize changes white space only: every other character of the query stays, in order |
| Isotope.NormalizeEmptyIff | components/tools/IsotopeFinder.tsx:23-24 | the early `{}` is taken exactly for queries of white space alone |
| Isotope.NameDashMass | components/tools/IsotopeFinder.tsx:26 | the mass found by the first expression is below 1000 |
| Isotope.NameDashMassSound | components/tools/IsotopeFinder.tsx:26-28 | what the first expression finds is the letter group and the value of the digit group of a match of `^([A-Za-z]+)\s*[- ]\s*(\d{1,3})$` |
| Isotope.NameDashMassComplete | components/tools/IsotopeFinder.tsx:26-28 | every match of that expression is found, with its groups |
| Isotope.MassSymbol | components/tools/IsotopeFinder.tsx:34 | the mass found by the second expression is below 1000 |
| Isotope.MassSymbolSound | components/tools/IsotopeFinder.tsx:34-37 | what the second expression finds is the groups of a match of `^(\d{1,3})\s*([A-Za-z]{1,2})$` |
| Isotope.MassSymbolComplete | components/tools/IsotopeFinder.tsx:34-37 | every match of that expression is found, with its groups |
| Isotope.SymbolDashMassAt | components/tools/IsotopeFinder.tsx:48 | the unanchored fifth expression tried at one position finds a mass below 1000 |
| Isotope.SymbolDashMassAtSound | components/tools/IsotopeFinder.tsx:48-51 | what it finds at a position is the groups of a match of `([A-Za-z]{1,2})\s*[- ]\s*(\d{1,3})` there, the digits taken greedily |
| Isotope.SymbolDashMassAtComplete | components/tools/IsotopeFinder.tsx:48-51 | a match at a position is found there, with the same letters, and with the same digits when they were taken greedily |
| Isotope.FirstMatch | components/tools/IsotopeFinder.tsx:48 | the engine reports the leftmost position where the fifth expression matches |
| Isotope.Lookup | components/tools/IsotopeFinder.tsx:30-50 | a known symbol is kept as it is; otherwise the result is the symbol the names map gives for the lower-cased text, and none when that text is not a name |
| Isotope.ParseQuery | components/tools/IsotopeFinder.tsx:22-56 | parseQuery on the normalized query: every mass below 1000, every symbol known |
| Isotope.ParseNormal | components/tools/IsotopeFinder.tsx:24-55 | the same bounds for the cascade on a normalized query |
| Isotope.Answer | components/tools/IsotopeFinder.tsx:27-53 | the record built by the expression that decides keeps the same bounds |
| Isotope.Cascade | components/tools/IsotopeFinder.tsx:26-55 | the expressions tried in order keep the same bounds |
| Isotope.Skip | components/tools/IsotopeFinder.tsx:26-55 | an expression that does not match passes the query on |
| Isotope.Take | components/tools/IsotopeFinder.tsx:26-55 | an expression that matches returns at once |
| Isotope.FirstDecides | components/tools/IsotopeFinder.tsx:26-55 | the first matching expression decides, whatever the later ones would do |
| Isotope.Decides | components/tools/IsotopeFinder.tsx:22-56 | on a normalized non-empty query parseQuery is the answer of the first expression that matches |
| Isotope.NoneDecides | components/tools/IsotopeFinder.tsx:55 | when no expression matches the result is `{}` |
| Isotope.BlankQuery | components/tools/IsotopeFinder.tsx:24 | a blank query gives `{}` |
| Isotope.LettersDashNumber | components/tools/IsotopeFinder.tsx:26-32 | "C-14", "Carbon-14", "O 18": the letters looked up and the number as the mass |
| Isotope.NumberLetters | components/tools/IsotopeFinder.tsx:34-39 | "14C": the number as the mass, and the letters only when they are themselves a symbol (names are not looked up) |
| Isotope.NumberOnly | components/tools/IsotopeFinder.tsx:41 | "14": a mass and no symbol |
| Isotope.LongNumber | components/tools/IsotopeFinder.tsx:41-55 | four or more digits match nothing and give `{}` |
| Isotope.LettersOnlyQuery | components/tools/IsotopeFinder.tsx:43-46 | letters alone are looked up, with no mass |
| Isotope.GluedQuery | components/tools/IsotopeFinder.tsx:26-55 | letters glued to digits ("C14") match no expression and give `{}` |
| Isotope.NameDashMassNeedsLetter | components/tools/IsotopeFinder.tsx:26 | the first expression needs a letter at the start |
| Isotope.NameDashMassNeedsDigit | components/tools/IsotopeFinder.tsx:26 | the first expression needs a digit at the end |
| Isotope.MassSymbolNeedsLetter | components/tools/IsotopeFinder.tsx:34 | the second expression needs a letter at the end |
| Isotope.MassSymbolNeedsDigit | components/tools/IsotopeFinder.tsx:34 | the second expression needs a digit at the start |
| Isotope.NoSeparatorNoMatch | components/tools/IsotopeFinder.tsx:26-48 | without white space or a hyphen neither separator expression matches |
| Category.DashChar | utils/categoryMeta.ts:65 | a character in U+2010..U+2015 or U+2212 becomes `-`, every other character is left as it is; so white space stays white space and only upper-case letters are left outside the output alphabet |
| Category.Dashes | utils/categoryMeta.ts:65 | the dash replacement keeps the length and maps every character on its own |
| Category.AfterHyphen | utils/categoryMeta.ts:66 | a match of `\s*-\s*` ends past its hyphen; everything between the hyphen and the end is white space, and the end is the end of the text or a character that is not |
| Category.HyphenTight | utils/categoryMeta.ts:66 | the hyphen-spacing replacement gives output exactly while input is left |
| Category.HyphenTightHead | utils/categoryMeta.ts:66 | where the expression matches a single hyphen is written, elsewhere the character is copied |
| Category.HyphenTightTight | utils/categoryMeta.ts:66 | after the replacement no white space stands next to a hyphen |
| Category.CollapseTight | utils/categoryMeta.ts:67 | collapsing white space keeps hyphens free of white space |
| Category.PipelineNormal | utils/categoryMeta.ts:61-67 | the pipeline's output is lower case, has no dash variant, no white space at its ends, only single plain spaces, and none next to a hyphen |
| Category.PipelineFixes | utils/categoryMeta.ts:61-67 | a string in that normal form goes through the pipeline unchanged |
| Category.PipelineIdempotent | utils/categoryMeta.ts:61-67 | the pipeline applied twice is the pipeline applied once |
| Category.DashesTrimKeeps | utils/categoryMeta.ts:64-65 | trimming before the dash rewrite removes white space only |
| Category.DashesSlice | utils/categoryMeta.ts:65 | the dash rewrite of a slice is the slice of the dash rewrite |
| Category.MatchKeeps | utils/categoryMeta.ts:66 | replacing one match of `\s*-\s*` by `-` removes white space only |
| Category.StepKeeps | utils/categoryMeta.ts:66 | one step of the hyphen-spacing replacement keeps every character other than white space |
| Category.HyphenTightKeeps | utils/categoryMeta.ts:66 | the hyphen-spacing replacement removes white space only |
| Category.PipelineKeeps | utils/categoryMeta.ts:61-67 | with white space deleted, the cleaned text equals the lower-cased, dash-rewritten input: the pipeline adds, removes and reorders nothing else |
| Category.MessyLower | utils/categoryMeta.ts:63 | " Poor  Metal " lower-cases to " poor  metal " |
| Category.MessyTrimmed | utils/categoryMeta.ts:64 | " poor  metal " trims to "poor  metal" |
| Category.MessyCollapsed | utils/categoryMeta.ts:67 | "poor  metal" collapses to "poor metal" |
| Category.MessyPipeline | utils/categoryMeta.ts:61-67 | the pipeline mends " Poor  Metal " (spaces at the ends, capitals, a doubled space) to "poor metal" |
| Category.MessyPoorMetal | utils/categoryMeta.ts:61-82 | " Poor  Metal " normalizes to "post-transition metal" |
| Category.NormalizeCat | utils/categoryMeta.ts:60-83 | normalizeCat with own-key alias lookup: empty for the empty input; otherwise the alias target when the cleaned text is a listed alias, and the cleaned text itself when it is not; the result is always in normal form |
| Category.TargetsNormal | utils/categoryMeta.ts:69-78 | every alias target is non-empty, in normal form and not itself an alias |
| Category.AliasTarget | utils/categoryMeta.ts:69-78 | every alias leads to a canonical name in one step |
| Category.AliasTargetsMeta | utils/categoryMeta.ts:2-78 | every alias target is a key of CATEGORY_META except "halogen", the target of "diatomic nonmetal" |
| Category.PoorMetal | utils/categoryMeta.ts:74 | "poor metal" normalizes to "post-transition metal" |
| Category.NonAliasKept | utils/categoryMeta.ts:80-82 | a normal string that is no alias is returned as it is: the CATEGORY_META test changes nothing |
| Category.NormalizeCatIdempotent | utils/categoryMeta.ts:60-83 | normalizing a normalized category changes nothing |
| Category.BlankCategory | utils/categoryMeta.ts:61-67 | white space alone normalizes to the empty string, in both versions |
| Category.AsWrittenAgrees | utils/categoryMeta.ts:60-83 | normalizeCat as written gives the corrected result on every input whose cleaned text is not an inherited key of a plain object |
| Category.ConstructorFixed | utils/categoryMeta.ts:61-67 | "constructor" goes through the pipeline unchanged |
| Category.InheritedLookup | utils/categoryMeta.ts:80 | `aliases["constructor"]` finds the inherited Object function, which is truthy |
| Category.InheritedKeyFound | utils/categoryMeta.ts:60-83 | normalizeCat as written returns that function for "constructor"; the corrected version returns "constructor" |
| ElementsData.FirstRule | utils/elementsData.ts:43-60 | the result is the fallback or the name of one of the rules |
| ElementsData.NormalizeCategoryFirstWins | utils/elementsData.ts:43-60 | the name of the first rule whose keyword occurs in the lower-cased category is returned |
| ElementsData.NormalizeCategoryKeeps | utils/elementsData.ts:59 | a category containing no keyword is returned as it was given |
| ElementsData.NormalizeCategoryNamed | utils/elementsData.ts:43-58 | a category containing some keyword maps to a canonical name |
| ElementsData.PostTransitionNotTransition | utils/elementsData.ts:51-52 | a category mentioning "post-transition" is never called "transition metal": the more specific test comes first |
| ElementsData.KToC | utils/elementsData.ts:40-41 | a missing temperature stays missing; a present one is converted by subtracting 273.15 and rounded to two places |
| ElementsData.ToElement | utils/elementsData.ts:62-101 | number, symbol, name, phase, period, group, block, density, electronegativity and summary are passed through; the atomic weight is null exactly when the mass is missing and otherwise its value rounded to three places; the melting and boiling points are kToC of the raw values; the category goes through normalizeCat; and the semantic electron configuration wins when it is present and non-empty |
| ElementsData.Insert | utils/elementsData.ts:103-105 | inserting a record keeps the records, adding one |
| ElementsData.InsertSorted | utils/elementsData.ts:103-105 | inserting into a list ordered by atomic number keeps it ordered |
| ElementsData.SortByNumberSorted | utils/elementsData.ts:103-105 | the sort orders the records by atomic number |
| ElementsData.SortByNumberStable | utils/elementsData.ts:103-105 | the sort is stable: the records with one atomic number keep the order they had |
| ElementsData.InsertWithNumber | utils/elementsData.ts:103-105 | an inserted record goes in front of the records with its own number and leaves every other number's records in order |
| ElementsData.SortByNumberPermutes | utils/elementsData.ts:103-105 | the sort keeps exactly the records it was given |
| ElementsData.ElementsOrdered | utils/elementsData.ts:103-105 | `elements` is the sorted records, each mapped by toElement, so its atomic numbers ascend |
| Text.NatToString | components/tools/LimitingReagentTool.tsx:93 | the decimal digits of n, without a leading zero, which parseInt reads back as n |
| Text.DigitRun | components/tools/LimitingReagentTool.tsx:93 | `\d+` taken greedily: the longest run of digits from a position |
| Text.TrimStart | components/tools/LimitingReagentTool.tsx:89 | the start of `trim()`: only white space is removed, and the rest starts with no white space |
| Text.TrimEnd | components/tools/LimitingReagentTool.tsx:89 | the end of `trim()`: only white space is removed, and the rest ends with no white space |
| Text.Trim | components/tools/LimitingReagentTool.tsx:89 | `trim()` leaves no white space at either end |
| Text.TrimKeeps | components/tools/LimitingReagentTool.tsx:89 | `trim()` removes white space only: with white space deleted, the result and the input are equal |
| Text.TrimIsInfix | components/tools/LimitingReagentTool.tsx:89 | `trim()` removes exactly white space at the two ends and keeps the middle |
| Text.TrimIdempotent | components/tools/LimitingReagentTool.tsx:89 | trimming twice is trimming once |
| Text.TrimEmptyIff | components/tools/ReactionStoichiometryTool.tsx:21-22 | a trimmed text is empty exactly when it held white space alone |
| Text.Split | components/tools/LimitingReagentTool.tsx:88 | `split("+")` gives at least one piece, none holding the separator, and joining them back gives the text; one piece exactly when the separator is absent |
| Text.SplitJoin | components/tools/LimitingReagentTool.tsx:88 | pieces free of the separator, joined, are split back into themselves |
| Text.StripSpace | components/tools/LimitingReagentTool.tsx:19 | `replace(/\s+/g, "")` leaves no white space and changes a text without white space not at all |
| Text.StripSpaceConcat | components/tools/LimitingReagentTool.tsx:19 | deleting white space from two joined texts deletes it from each |
| Text.StripSpaceInfix | components/tools/LimitingReagentTool.tsx:19 | cutting white space off the two ends of a text leaves the same characters once white space is deleted |
| Text.CollapseSpace | components/tools/IsotopeFinder.tsx:18 | `replace(/\s+/g, " ")` keeps a non-empty text non-empty, starting with white space exactly when the text did |
| Text.CollapseSpaceKeeps | components/tools/IsotopeFinder.tsx:18 | collapsing changes white space only: with white space deleted, the result and the input are equal |
| Text.CollapseSpaceWord | components/tools/IsotopeFinder.tsx:18 | a word without white space in front is copied as it is, and the rest is collapsed on its own |
| Text.CollapseDoubleSpace | components/tools/IsotopeFinder.tsx:18 | two spaces between two words become one space |
| Text.CollapseSpaceSingle | components/tools/IsotopeFinder.tsx:18 | after it every run of white space is one plain space |
| Text.CollapseSpaceFixes | components/tools/IsotopeFinder.tsx:18 | a text with single plain spaces is left unchanged |
| Text.CollapseAllSpace | components/tools/IsotopeFinder.tsx:18 | the result is white space alone exactly when the text was |
| Text.ToLower | utils/categoryMeta.ts:63 | `toLowerCase()` maps each character on its own and keeps the length |
| Text.LowerChar | utils/categoryMeta.ts:63 | an ASCII capital becomes the letter 32 code points on, a lower-case letter; every other character is left as it is |

## Left out

- Reagent.Mass: atomic weights and molar masses are exact reals, not IEEE doubles, so rounding in the sums is not modelled; the same holds for Reagent.WeighCounts, Reagent.MolarMass, Reaction.ReactionMolarMass and the `Weights` table they share.
- Reaction.Calc: only the non-numeric part of calc's result is modelled (the two coefficients and molar masses); `nGiven`, `nTarget`, the unit conversions with Avogadro's number and the molar volume, and the `fmtSciPlain` text are left out because they are floating-point arithmetic and formatting. The amount field's `parseFloat` is a parameter, `None` for a non-finite result.
- Reaction.CalcOwn: shares that restriction.
- Strings are sequences of Dafny characters, not UTF-16 code units, so indexing and regular-expression steps over characters outside the Basic Multilingual Plane are not modelled.
- Text.ToLower: only ASCII capitals are lowered, while `toLowerCase()` follows full Unicode case mapping. Text.IsSpace covers the white space of `\s`, and the dash variants of `normalizeCat` are matched by code point.
- Balance.BalanceEquation: the coefficients are unbounded integers; the source turns them into doubles with `Number(f.n)` (components/tools/EquationBalancer.tsx line 371) and prints them with a template string, so a coefficient of 1e21 or more would print in exponent form, and one beyond 2^53 would be rounded. The model prints the exact decimal.
- Formula.Multiplier: `parseInt` and `Number(...)` on digit runs are read as unbounded natural numbers, so counts beyond 2^53 are not rounded as doubles would be. The same applies to Reagent.ReadCoefficient, Reaction.MatchSpecies and the mass numbers of Isotope.ParseQuery.
- Isotope.ParseQuery: the element symbols and the name-to-symbol map are parameters. The isotope data set that the finder then searches, the category pill, abundance percentages and the rest of the page are not part of this model.
- ElementsData.ToElement: JavaScript's `toFixed` rounding is passed in as the functions `fix2` and `fix3`. The fields copied with `?? null` that no other code in this model reads are not modelled: shells, molar heat, electron affinity, ionization energies, appearance, discoverer, namer, CPK colour, image links, source URL and the table positions. The group argument passed to `normalizeCat` is ignored by it and is left out.
- ElementsData.Elements: the in-place `Array.prototype.sort` is modelled on values as a stable insertion sort, so the mutation of the imported JSON array itself is not modelled.
- ElementsData.NormalizeCategory is modelled as written, but nothing in the repository calls it. The element list goes through `normalizeCat` instead.
- The raw element records are a parameter. The JSON data set itself is not part of this model.
- The React components, their state hooks, input boxes and rendering are left out. So are the error text shown for a thrown exception and the tools' other, purely numeric panels.

## Findings

| source | as written | input that shows it | evidently intended | confidence | as-written member | corrected member |
|---|---|---|---|---|---|---|
| components/tools/EquationBalancer.tsx:351-378 | the null-space vector is divided by its gcd but its signs are not checked, and the printer takes `abs` of every coefficient | "O2 -> H2O + H2": the vector (-1, -2, 2) is printed as "O2 → 2 H2O + 2 H2", which does not conserve hydrogen | refuse a vector with mixed signs (or flip an all-negative one) instead of printing an unbalanced equation | not executed | SignExample.MixedSignsPrintUnbalanced | Balance.BalanceEquationChecked |
| components/tools/ReactionStoichiometryTool.tsx:114-121 | coefficients are stored in a plain `{}` and read with `coeffMap[species]`, so a name of an Object.prototype member finds the inherited function, which is truthy | given species "constructor" in any reaction that does not list it: calc answers instead of returning null | look up own keys only, so an unlisted species gives null | not executed | Reaction.InheritedCoefficientAnswered | Reaction.CalcOwnIsListed |
| utils/categoryMeta.ts:69-82 | the aliases are a plain object literal read with `aliases[s]`, so a cleaned category equal to "constructor" finds the inherited Object function and normalizeCat returns it instead of a string | the category "constructor" | look up own keys only, so the text is returned unchanged | not executed | Category.InheritedKeyFound | Category.NormalizeCatIdempotent |
