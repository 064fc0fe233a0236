# A verified model of situ's reasoning core

situ describes wire formats. Its compiler `situc` reads a schema, merges the files it imports, decides
what every size expression can be, and generates readers and writers for C, C++, Rust, Python and a Lua
dissector. This project models the parts of the compiler that *reason*, and proves what the rest of it
relies on:

- **Expressions and sizes** (`Bits`, `Ast`, `Intervals`, `Solver`, `SolverTheorems`, `Exactness`,
  `ExactTheorems`, `BuiltinRanges`, `Terms`, `RelationalFloor`): the abstract interpreter over unbounded
  integers and its concrete evaluator, one interval rule per operator, how tight its ranges are, the
  `align_up(x, k) - x` special case, and the linear substitution loop that proves a size is not negative from
  bounds stated between fields.
- **Imports** (`Graph`, `Imports`, `ImportTheorems`): the depth-first splice with its shared set of files seen.
- **Lexing** (`Lexical`, `LexicalTheorems`, `Lexer`): the scanner object and the grammar it implements.
- **The dissector** (`DelimiterScan`, `Emission`): the quote/escape/longest-match scan, and the order
  functions are emitted in.
- **Running a size backwards** (`Inversion`), **codec pipelines** (`Pipeline`), **relations compiled to
  bindings** (`Relation`, `RelationTheorems`, `RelationAccepted`, `RelationMeaning`) **and run in C**
  (`RelationWidth`, `RelationMachine`, `RelationWords`).
- **Text and trees** (`Splice`, `Builtins`, `BuiltinTexts`, `BuiltinTheorems`, `BuiltinMeaning`, `Namespaces`,
  `Flattened`), **varints** (`Varint`, `VarintWire`), **bit diagrams** (`Diagram`, `DiagramText`), **the
  capability lattice and its gate** (`Capability`, `AxisOrder`, `Revision`).

Code that updates state is a method or a class proved equal to a specification function; the theorems are
about those functions. Errors are a `Result` with a tag for each diagnostic, and a tag of its own for a
Python exception that is none of them. `dafny verify dfyconfig.toml` checks everything.

## What the proofs found

Where the code does not do what its comments or documentation say, the code is modelled as it is, and the
proof says exactly when the promise holds.

- **Interval soundness has two exceptions, and no third** (`SolverTheorems.SoundIff`). A call whose arguments
  are all points is folded by `evaluate`, which looks only at enums: an enum member whose path is also a
  field's, with a value outside the field's range, makes ranges unsound
  (`SolverTheorems.EnumOutOfRangeUnsound`). And `interval_of` takes a name that is both a constant and a field
  for the constant, where every generated reader reads the field: unless the field can only hold the
  constant, ranges that use the name are unsound (`SolverTheorems.SharedNameUnsound`), and a divisor that
  was accepted for the constant can be zero. `_linear` looks among fields first, as the readers do, so the
  floor it gives needs no such condition (`RelationalFloor.FloorSound`). A part whose range is a point is
  emitted as that point; both exceptions break parts that are not.
- **A range that `[min]` and `[max]` emptied can crash the solver** with a Python `ZeroDivisionError`, and
  nothing else does (`SolverTheorems.NoHostErrorIff`). `constrain` in situc/layout.py does not refuse one.
- **Alignments are not checked when a range is computed.** An accepted expression has a value in a message
  exactly when every alignment it evaluates is positive there (`SolverTheorems.AcceptedIsDefinedIff`). A
  negative constant divisor is accepted too, and over a field of more than one value C and Python then agree
  exactly when it is -1 (`SolverTheorems.NegativeDivisorIff`).
- **Import cycles are not refused.** The module's documentation says they are; the code lets the second
  visit contribute nothing. The model follows the code.
- **The emission loop stalls exactly on a cycle of structs none of which contains itself.** Flattened
  layouts have none; entries reachable only through a bracketed name would (`Emission.BracketsAloneStall`).
- **Composed pipeline lengths.** A composed signature promises too little for a padded ratio, for an addend
  beside a ratio, and for a ratio that rounds up before a later one multiplies. A single stage has its exact
  condition (`Pipeline.SingleCoversIff`), and so has every pipeline with one ratio that divides among stages
  that keep, add or multiply (`Pipeline.CoversIff`): with nothing appended before the division the promise
  covers every run exactly when nothing after it multiplies or it never rounds (`Pipeline.PlainCoversIff`),
  and an addend before it moves that to the least share of the data past the addend's slack. However many
  ratios divide, the promise covers every run exactly when it covers those of the inputs shorter than the
  composed denominator (`Pipeline.ResiduesIff`). The lower end is promised wrongly too: a bounded pipeline is
  said to come out no shorter than its input, though an exact stage in it may shrink it, and an addend rounded
  apart from the data can make an exact one a bit too long (`Pipeline.ShortestIff`). The upper end is kept
  where nothing is rounded twice (`Pipeline.PipelineBound`) and where stages keep to their ratio without
  rounding (`Pipeline.UnroundedBound`).
- **Relations.** (a) A path that goes *through* an array of structs, or ends in a member whose length only
  the message knows, is accepted and its bindings cannot run (`RelationTheorems.BindingsRunIff`).
  (b) `(x + y).z` is accepted and read as `x.z` (`RelationMeaning.NotAPathIsRead`); an accepted expression is
  read as it is written exactly when members are taken only of paths (`RelationMeaning.AsReadIff`). (c) Two
  arrays are compared whatever surrounds their paths, as in `-a.key == b.key`
  (`RelationMeaning.ArraysPreservedIff`). (d) Every target takes a name that starts with an underscore for a
  local, so a parameter called `_x` is never read: its constraint answers of no messages unless a parameter
  is called what `_x` is renamed to (`RelationMeaning.UnderscoreUnread`), or `_x` is spelled like a local
  bound before, which it then reads. Every path is read along itself exactly when no root starts with an
  underscore and none is spelled like a local bound before it, by an earlier path or, in Python, where a
  relation is one function, by an earlier constraint (`RelationMeaning.CapturedIff`,
  `RelationTheorems.ScopesFit`). What a captured root holds decides whether the bindings run
  (`RelationTheorems.BindingsRunIff`); where it is a view of the parameter's own struct they do, and the test
  is of another path: `b.sub.y == _0.y` then holds of every pair (`RelationMeaning.CaptureAnswersAll`).
  (e) Widening protects operands, not results, and in C and C++ it casts reads only: a literal stays an
  `int`, and so does every comparison and whatever is computed from such parts alone. The operators that can
  leave a type are exactly `+ - * <<`, unary `-`, and `~` when unsigned (`RelationWidth.ClosedIff`,
  `RelationWidth.ClosedUnaryIff`). Where every value stays in the type it is computed in and brought to, the
  C test is right (`RelationWords.WordsPreserved`), which the fields' ranges can show beforehand
  (`RelationWords.RangesSuffice`); with signed operands it is undefined everywhere else
  (`RelationWords.SignedWordsIff`). A comparison of trees of those operators over unsigned reads is right
  exactly when the two unbounded values compare alike once kept in the type
  (`RelationWords.WordsComparedIff`). So `a.x == b.x + 1` misses only the turn from the largest value to 0
  (`RelationMachine.CarryIff`), and `a.x - b.x < 1` over unsigned fields is wrong whenever it borrows
  (`RelationMachine.BorrowIff`). `a.x == 1 << b.n` is accepted for `b.n` up to 63 and is right exactly below
  31, undefined from there on (`RelationWords.ShiftedLiteralIff`).
- **`min` gives up a bound.** Where one argument has no upper end `min` is given none, though it never
  exceeds the other's (`BuiltinRanges.OpenIff`); the range of `popcount` is met at both ends only under
  `BuiltinRanges.CountIff`'s conditions.
- **The same `--define` twice** keeps the value that does not sort higher and corrupts the text after it
  exactly when the other value's length differs from what it replaced, the end of the file aside: giving one
  flag twice with one value is enough (`Splice.DuplicateIff`).
- **`is_at_least` is not transitive** through an `Aligned` with no number, and `meet_all` starts from one,
  so a struct's meet forgets its members' alignment numbers (`Capability.TransitiveIff`,
  `Capability.RequirementTransfers`). Both callers overwrite that axis.
- **leb128 with a whole last byte** (`max_bits = 64; max_bytes = 9;`) is accepted by the parser and its
  reader does not know the form. Every other permitted declaration keeps every value it permits
  (`Varint.DeclarationReturnsIff`).
- **`max_bytes` is sometimes one more byte than any value takes**: exactly for a marked encoding whose
  declared width stays below its first marker, and for an hpack prefix wider than the value or eight bits of
  both (`VarintWire.FilledIff`). Elsewhere some value takes all of them.
- **Namespaces.** A field whose path starts with a name the namespace declares is captured by it
  (`Namespaces.PathKeptIff`); `unqualify` undoes flattening exactly when no other name carries the prefix
  already (`Namespaces.UnqualifyUndoesIff`).
- **Generated `align_up`** divides with truncation, so the text that is emitted computes the compiler's
  rounding exactly when the sum it divides is not negative or divides evenly (`BuiltinMeaning.RoundedMeans`).

## Model

| member | source | states |
|---|---|---|
| Bits.AndBit | situc/expr.py:860-879 | `&` on unbounded integers, negative ones too, holds a bit exactly where both operands do |
| Bits.OrBit | situc/expr.py:860-879 | bitwise or holds a bit exactly where either operand does |
| Bits.XorBit | situc/expr.py:860-879 | `^` holds a bit exactly where the operands differ |
| Bits.RoundUpIs | situc/expr.py:942-950 | `_round_up` gives the least multiple of the alignment that is not below the value, for negative values too |
| Bits.FloorDivIs | situc/expr.py:168-174 | Python's division leaves a remainder with the divisor's sign and short of it |
| Bits.BitCountIs | situc/expr.py:882-892 | `popcount` is how many of the bits up to the top one are set |
| Intervals.RuleSound | situc/expr.py:146-240 | for every binary operator, where its guard passes, the result of any two values in the operand intervals is in the interval its rule gives |
| Intervals.RuleTight | situc/expr.py:117-143 | the rules the solver takes for exact reach both ends they claim on bounded operands |
| Exactness.TestsAre | situc/expr.py:860-879 | comparisons answer 0 or 1, exactly one of less, same and greater holds, and the rest are their opposites; and, or and not are of what is not zero |
| Exactness.SumsAre | situc/expr.py:860-879 | `+` and `-` undo one another, `-x` and `~x` are what completes `x` to 0 and to -1, and a product grows by its factor |
| Exactness.QuotientIs | situc/expr.py:860-879 | quotient and remainder make up the dividend, the remainder short of the divisor and with the dividend's sign, and there is none exactly for a divisor of zero |
| Exactness.ShiftsAre | situc/expr.py:860-879 | shifting is by powers of two, downwards to the right, and has no value exactly for a negative amount |
| Exactness.RuleSharp | situc/expr.py:146-240 | for every operator, over operands known from below that meet its condition on overlap: each end of its rule's range is the operator's value on some operands in range, and an end is lacking only where the values go on for ever |
| Exactness.KnownIff | situc/expr.py:117-240 | a rule gives a lower end exactly where both ends can be worked out from the operands', and nothing at all elsewhere |
| Exactness.RefusedIff | situc/expr.py:331-405 | an operator is refused exactly where some operands in range cannot be given to it: zero to divide by, then something negative to divide, or a shift by less than 0 or more than 63 |
| Exactness.FoldRefusedIff | situc/expr.py:826-858 | folding two constants is refused exactly where Python raises or the shift is by more than 64, and otherwise gives the operator's value |
| Exactness.BuiltinSharp | situc/expr.py:606-655 | the ends of a call's range are values of the call on arguments in range, and it lacks an upper one only where it has none, under each builtin's condition |
| BuiltinRanges.KnownCallIff | situc/expr.py:613-655 | a call is refused exactly where it counts the bits of what may be negative or has no end, and has a range exactly where its arguments have lower ends and an alignment is one positive number under something not negative |
| BuiltinRanges.OpenIff | situc/expr.py:621-629 | `min` and `max` have no upper end exactly where an argument has none, though `min` never exceeds the other's |
| BuiltinRanges.CountIff | situc/expr.py:634-639 | the range of `popcount` starts at 0 exactly where 0 is in range; its lower end is reached exactly where 0 or a power of two is, and its upper end, the fewest bits that hold the largest, exactly where the largest is all ones |
| Exactness.UnarySharp | situc/expr.py:300-310 | so are both ends of minus over a range with two ends, and of not over one with zero and something else |
| Exactness.ScalarIs | situc/expr.py:94-98 | a field's range before constraints is exactly the values its bits can spell |
| Solver.SameValue | situc/expr.py:556-586 | two expressions the structural comparison takes for one have one value in every environment and message |
| ExactTheorems.SameExpressionIff | situc/expr.py:556-586 | two expressions are taken for one exactly when they are of the six kinds compared and differ in no more than how literals are spelled |
| Solver.PaddingSound | situc/expr.py:520-553 | `align_up(x, k) - x` is between 0 and `k - 1` whatever `x` is |
| ExactTheorems.PaddingWithin | situc/expr.py:520-553 | an accepted `align_up(x, k) - x` over a constant `k`, its sides not both constant, is given a range within 0 and `k - 1`, whatever the range of `x` |
| ExactTheorems.PaddingAttained | situc/expr.py:520-553 | where `x` has `k` values one after the other, both ends of that range are attained by two of those messages |
| Solver.BuiltinSound | situc/expr.py:606-655 | the ranges of `min`, `max`, `align_up` and `popcount` hold every value the calls have |
| Solver.IntervalSound | situc/expr.py:266-409 | the value of every accepted expression, in every message inside its field ranges, is at most the upper end and at least a known lower end, where names that are both a field and something else agree with the field's range |
| ExactTheorems.LayoutCallIff | situc/expr.py:963-988 | `size`, `offset` and `count` have the value the layout gives for that question and path and no other, and are refused for their number of arguments, then for what is no path, then for what the layout does not know |
| ExactTheorems.SumIs | situc/expr.py:606-611 | the sum of a run is the message's, and has no value without one |
| ExactTheorems.EndsAttained | situc/expr.py:266-409 | where shared names agree, the range of an accepted expression that names each field once under operators that move one way in each operand is known from below, and each end it has is the expression's value in a message in range |
| SolverTheorems.SoundIff | situc/expr.py:266-409 | over bounded, inhabited field ranges that soundness holds for all expressions and messages, and for all that are computed rather than folded, exactly when no enum member shares a path with a field whose range excludes it and no constant its name with a field that can hold anything else |
| SolverTheorems.EnumOutOfRangeUnsound | situc/expr.py:606-655 | where an enum member does, a computed expression and a message that break it |
| SolverTheorems.SharedNameUnsound | situc/codegen/c/emit.py:7382-7384 | where a constant does, since the generated reader reads the field, a computed expression and a message that break it |
| SolverTheorems.ClosedFolds | situc/expr.py:266-409 | on closed expressions the range is exactly the point the evaluator computes, and there is none exactly where the evaluator refuses |
| SolverTheorems.AcceptedIsDefined | situc/expr.py:320-400 | where shared names agree, an accepted expression with provably positive alignments has a value in every message in range |
| SolverTheorems.BadAlignmentIsUndefined | situc/expr.py:953-960 | where shared names agree, one constant alignment below one leaves the whole expression without a value |
| SolverTheorems.AcceptedIsDefinedIff | situc/expr.py:727-879 | where shared names agree, in each message in range an accepted expression has a value exactly when every alignment it evaluates, constant or not, is positive there |
| SolverTheorems.ConstantAlignmentsIff | situc/expr.py:953-960 | with constant alignments that is so in every message exactly when the constants are positive |
| SolverTheorems.AcceptedOperands | situc/expr.py:320-400 | where shared names agree, an accepted non-constant `/` or `%` has a non-negative dividend and a non-zero divisor, C and Python then agree exactly when the divisor is positive or nothing is left over, and a non-constant shift is by 0 to 63 |
| SolverTheorems.TruncationIsFloorIff | situc/expr.py:860-879 | on a non-negative dividend C's division is Python's exactly when the divisor is positive or nothing is left over |
| SolverTheorems.RemainderIsFloorIff | situc/expr.py:860-879 | and so for the two remainders |
| SolverTheorems.NegativeDivisorIff | situc/expr.py:168-190 | a field of more than one value divided by any negative constant is accepted, and C and Python agree on the quotient, and on the remainder, for all its values exactly when the constant is -1 |
| SolverTheorems.NoHostError | situc/expr.py:168-175 | no accepted or refused expression raises a host exception where every declared range is inhabited |
| SolverTheorems.NoHostErrorIff | situc/layout.py:3067-3108 | the solver is total exactly when every field range that a path or a name not taken by a constant reads is inhabited |
| RelationalFloor.RelationalFloor | situc/expr.py:472-517 | the loop ends, for every set of stated bounds, and computes the specified floor |
| RelationalFloor.LinearExact | situc/expr.py:417-455 | a linear form is the value of its expression in every message, names taken for fields before constants as the readers take them |
| RelationalFloor.LinearIff | situc/expr.py:417-455 | exactly the sums of fields times numbers have a linear form, and it has a term exactly where something varies |
| RelationalFloor.FloorOfReached | situc/expr.py:458-469 | over inhabited ranges the floor of a form is its value in some message in range |
| RelationalFloor.FloorOfIff | situc/expr.py:458-469 | a form has a floor exactly where every field that counts has the end its sign asks for |
| RelationalFloor.NextStepIff | situc/expr.py:494-507 | the loop stops exactly where no field left that is added or subtracted has a stated bound on the useful side or an equality, and otherwise replaces the first such field by the first such bound |
| RelationalFloor.SubstituteLowers | situc/expr.py:472-517 | one substitution of a stated bound never raises the sum, in any message that meets the bound |
| RelationalFloor.FloorSound | situc/expr.py:472-517 | the floor is at most the expression's value in every message in range that meets every stated `max`, `min` and `must_eq` |
| RelationalFloor.FloorFromAtLeast | situc/expr.py:472-517 | a run never answers less than the best floor it has passed |
| RelationalFloor.RelationSeen | situc/expr.py:472-517 | a difference of two fields, the second declared at most the first less `k` or exactly that, is floored by at least what the relation gives, though no interval shows it |
| RelationalFloor.RelationSeenBelow | situc/expr.py:472-517 | and so is one whose first field is declared at least the second plus `k`, or exactly that |
| RelationalFloor.ArrayCount | situc/layout.py:3609-3645 | an array's count is its interval lifted by the floor, or the refusal its source gives |
| RelationalFloor.CountAcceptedIff | situc/layout.py:3609-3645 | a count is accepted exactly where its range or the floor shows that it is never negative and its range allows more than zero, and its lower end is the one that shows it |
| RelationalFloor.RefusedCountIsNegative | situc/layout.py:3609-3645 | one that names each field once is refused as negative only where a message in range, its fields' bounds on one another aside, makes it so |
| RelationalFloor.AcceptedCountIsNonNegative | situc/layout.py:3609-3645 | where shared names agree, an accepted count is non-negative and inside its range in every message that meets its fields' bounds |
| Imports.Expand | situc/imports.py:55-117 | the recursive splice over a shared set of keys and a schema updated in place computes the specified arrival, errors included, and ends on every finite graph |
| ImportTheorems.ExpandsIff | situc/imports.py:55-117 | expansion succeeds exactly when every directive of every reachable file resolves |
| ImportTheorems.ExpandsTo | situc/imports.py:55-117 | the files read are exactly the reachable ones, each is spliced in once, and each comes after the files it names but for those that lead back to it |
| ImportTheorems.AcyclicOrder | situc/imports.py:55-117 | without cycles every file's declarations come after those of all files it names |
| ImportTheorems.ExpandSchema | situc/imports.py:55-117 | a schema read from a root becomes the own declarations of the reachable files, each file's once, the root's last |
| ImportTheorems.OwnIs | situc/imports.py:106-117 | what a file is spliced in as is put together declaration by declaration, in order |
| ImportTheorems.OwnOne | situc/imports.py:113-117 | an import is no declaration of the file's own, and everything else is |
| ImportTheorems.TargetIff | situc/imports.py:80-97 | a library import is resolved against the library's root whoever imports it, any other against the importing file's directory, and refused exactly where there is none |
| Lexers.Lexer.Tokenize | situc/lexer.py:74-83 | the scanner object produces the tokens of the grammar, or its first error, from any text |
| Lexers.Lexer.SkipTrivia | situc/lexer.py:85-96 | the cursor moves past all white space and comments and nothing else |
| Lexers.Lexer.SkipBlockComment | situc/lexer.py:98-119 | nested comments end where their depth returns to zero, or are unterminated |
| Lexers.Lexer.ScanToken | situc/lexer.py:121-152 | one token by maximal munch, with the symbols in their listed order |
| Lexers.Lexer.ScanInt | situc/lexer.py:160-197 | an integer in any radix, with underscores, and every malformed one refused |
| Lexers.Lexer.ScanString | situc/lexer.py:199-218 | a string's characters with their escapes read, or why it is not one |
| Lexers.Lexer.ScanChar | situc/lexer.py:220-265 | a character literal's characters, or why it is not one |
| Lexers.Lexer.ScanEscape | situc/lexer.py:267-284 | what each escape stands for, under either quote |
| Lexers.Lexer.ScanHexEscape | situc/lexer.py:286-312 | two hexadecimal digits and no fewer |
| LexicalTheorems.ScanLocal | situc/lexer.py:121-152 | what a token is does not depend on anything past the blank that ends it |
| LexicalTheorems.MaximalMunch | situc/lexer.py:45-50 | no symbol the text starts with is longer than the one read, and an identifier or a number takes its whole word |
| LexicalTheorems.UnreadableIff | situc/lexer.py:121-152 | text is refused as no token exactly where it starts with no letter, digit, quote or symbol, and as non-ASCII exactly for a character past 127 |
| LexicalTheorems.CharacterClasses | situc/lexer.py:52-61 | the characters of identifiers, white space and numbers are exactly those listed |
| LexicalTheorems.DigitsInPlace | situc/lexer.py:160-197 | a digit is worth its place, in either case |
| LexicalTheorems.NothingSkippable | situc/lexer.py:85-96 | after trivia neither white space nor a comment is next |
| LexicalTheorems.RoundTrip | situc/lexer.py:74-137 | joining the slices of a text's tokens with single blanks and tokenizing again gives the same kinds, texts and values |
| LexicalTheorems.SpansAreApart | situc/lexer.py:74-119 | spans increase and are disjoint, and between them stand only white space, line comments and balanced block comments |
| LexicalTheorems.NumberReads | situc/lexer.py:160-197 | every natural written in every radix is read back as itself |
| LexicalTheorems.NumberAcceptedIff | situc/lexer.py:160-197 | a word that starts with a digit is a number exactly when all of it is digits and underscores of its marker's radix, a digit first, and is refused for having no digit exactly where none follows the marker; the malformed diagnostic is never reached |
| LexicalTheorems.UnderscoresDropped | situc/lexer.py:182-197 | underscores change no number |
| LexicalTheorems.EscapesIff | situc/lexer.py:267-284 | the escapes are the table's five, the quote, and `x` with two hexadecimal digits; every other is refused |
| LexicalTheorems.TextReads | situc/lexer.py:199-218 | every string, escaped, is read back as itself |
| LexicalTheorems.HexEscapeReads | situc/lexer.py:286-312 | every byte written as a hexadecimal escape is read back as itself |
| DelimiterScan.Scanner.Scan | situc/dissector.py:305-365 | the loop answers the first position the escape and quote walk visits, outside quotes, where an alternative fits before the limit, with the longest such alternative's width; else the whole range |
| DelimiterScan.Scanner.Longest | situc/dissector.py:305-365 | of the alternatives that fit at a position, the width of the longest |
| DelimiterScan.Scanner.FoundInside | situc/dissector.py:305-365 | a delimiter that is found lies wholly inside the range |
| DelimiterScan.Scanner.ScanUnique | situc/dissector.py:305-365 | the specification admits one answer |
| DelimiterScan.Scanner.EncodedScans | situc/dissector.py:305-365 | content with its special bytes escaped, followed by a delimiter, scans back to exactly its own length |
| DelimiterScan.Scanner.QuotedScans | situc/dissector.py:305-365 | content between quotes, whatever delimiters it holds, scans to the end of its closing quote |
| Emission.ReachedFrom | situc/traverse.py:3514-3540 | the worklist finds exactly the structs that follow a struct through its own members |
| Emission.IsRecursive | situc/traverse.py:3228-3254 | a struct is recursive exactly when it follows itself |
| Emission.EdgeIff | situc/traverse.py:3514-3540 | a struct names another exactly where one of its own entries does, as its type or as what it holds |
| Emission.Emit | situc/dissector.py:1861-1893 | the loop ends, emits no struct twice, emits each after every non-recursive struct it names, and stops only when everything left waits for something left |
| Emission.AllEmittedIff | situc/dissector.py:1861-1893 | every struct is emitted exactly when no struct waits, through others, for itself |
| Emission.FlattenedIsAcyclic | situc/dissector.py:1861-1893 | on flattened layouts no struct does: a stall would be a cycle of structs none of which contains itself |
| Emission.EmitAll | situc/dissector.py:1861-1893 | on flattened layouts every struct is emitted once, after what it names |
| Emission.BracketsAloneStall | situc/dissector.py:1861-1893 | two structs that name each other only through brackets stall the loop |
| Inversion.PathsListed | situc/invariant.py:293-331 | every path an expression applies an operator or a call to is listed, in order, as often as it stands there, members and subscripts spelled as written, and nothing else is, where members and subscripts are taken only of paths |
| Inversion.FormExact | situc/invariant.py:552-591 | a linear form is the expression's value in every message, names each path once and holds no zero coefficient |
| Inversion.TermsIff | situc/invariant.py:552-591 | a form names a field exactly where some two messages give the expression different values |
| Inversion.CombinedIff | situc/invariant.py:594-630 | of two expressions with forms, what an operator makes of them has one exactly where it adds, subtracts, multiplies by a number that is not zero or shifts left by one that is not negative, and each refusal has its exact cause |
| Inversion.RefusedParts | situc/invariant.py:552-591 | a part without a form refuses the whole with its own reason, the left one first |
| Inversion.InvertibleExact | situc/invariant.py:633-652 | an invertible expression is `scale * path + offset` in every message, and the scale is positive |
| Inversion.LengthInverts | situc/invariant.py:521-540 | the division recovers the field from the length of every message, and some message has the length exactly when nothing is left over |
| Inversion.RefusalIsSpecific | situc/invariant.py:655-675 | the last sentence of the refusal is never reached when there is no inverse |
| Inversion.DeterminesIff | situc/invariant.py:633-652 | the length of a linear size determines its fields exactly when there is at most one, so refusing two refuses nothing solvable |
| Pipeline.ComposeExpansion | situc/kernels.py:1000-1048 | the loop over accumulators computes the composed form, ratio and addend |
| Pipeline.ComposedFormIff | situc/kernels.py:1000-1048 | the composed form is unbounded exactly when some stage is, else bounded exactly when some stage is, else exact exactly when some stage is, else appending exactly when some stage appends something |
| Pipeline.ExtentPromises | situc/kernels.py:1051-1054 | reading the reduced ratio back promises the same length as the unreduced product, for every input length |
| Pipeline.PipelineBound | situc/kernels.py:1000-1054 | for kept forms, where nothing is rounded twice, a run of any input length through all stages is at most what the composition promises |
| Pipeline.UnroundedBound | situc/kernels.py:1000-1054 | for kept forms, any lengths that keep to each stage's ratio end at most `numerator / denominator * n + added`, the addend scaled by exactly the later ratios |
| Pipeline.ResiduesIff | situc/kernels.py:1000-1054 | for kept forms, however many ratios divide, the promise covers every run exactly when it covers the runs of the inputs shorter than the composed denominator |
| Pipeline.CoversIff | situc/kernels.py:1000-1054 | one ratio that divides, among any stages that keep, add or multiply: the promise covers every run exactly when the least share of the data past the addend's slack, times what follows, still rounds up all the way |
| Pipeline.PlainCoversIff | situc/kernels.py:1000-1054 | with nothing appended before it, exactly when nothing after it multiplies or it never rounds |
| Pipeline.SingleCoversIff | situc/kernels.py:1000-1054 | one stage alone: the promise covers it exactly when its form is kept, or its padded groups come out as one bit |
| Pipeline.UnboundedIff | situc/kernels.py:1016-1019 | for every length of input the composition promises no length exactly when some stage is unbounded, and exactly then a run through the stages has no longest output, padded ratios included |
| Pipeline.ShortestIff | situc/layout.py:3937-3993 | for kept forms the composed lower end is below every run exactly when it is for the inputs shorter than what the exact ratios divide by and, where the form promises no more than the input's length, those ratios together do not shrink it |
| Pipeline.OneLengthEach | situc/layout.py:3937-3993 | a stage that is neither bounded nor unbounded has one output length, so both its ends are one |
| Pipeline.ComposedIsWeakest | situc/kernels.py:935-997 | a pipeline is refused exactly when it is empty or holds a blockwise stage; accepted, it is well formed and no stronger than any stage, its form included |
| Pipeline.ComposedIsGreatest | situc/kernels.py:935-1066 | nothing that is no stronger than every stage is stronger than the composition |
| Relations.Plan | situc/relation.py:334-412 | the loops over constraints, paths and components compute the specified plan, or the first refusal |
| Relations.PlanMust | situc/relation.py:344-410 | one constraint's bindings, operands and ranges, or its refusal |
| Relations.WalkPath | situc/relation.py:367-398 | one path's accessor calls, each from the view the one before bound |
| RelationAccepted.PlannedIff | situc/relation.py:334-412 | which constraints are planned, from the layouts alone: comparable arrays asked to be the same or not, or paths that end at single scalars that one 64-bit type holds, under parts that can be emitted |
| RelationAccepted.ArraysAcceptedIff | situc/relation.py:221-268 | two arrays are compared exactly when asked to be the same or not and of one kind of element that is no float, in whole bytes and as many of them, and then every byte is |
| RelationAccepted.CheckIff | situc/relation.py:439-489 | a test is emitted exactly when each of its parts can be: no call, no signed division, and shifts by literals or bounded fields of 0 to 63 |
| RelationAccepted.AmountRangeIs | situc/relation.py:286-313 | the range the shift rule gives a field holds exactly the values of its type that keep to its literal bounds, and only the value it must equal where there is one |
| RelationTheorems.DecimalIs | situc/relation.py:334-412 | locals are numbered in decimal |
| RelationTheorems.TargetsInOrder | situc/relation.py:334-412 | over a whole plan the k-th binding binds the k-th local and no two bind the same |
| RelationTheorems.BindingsRunIff | situc/relation.py:357-398 | whatever ran before in its scope, a constraint's bindings run, each on its own struct from a parameter or an earlier local, exactly when every path goes through single members to one the layout knows the length of and every root, as the target spells it, holds a view of its parameter's struct |
| RelationTheorems.ScopesFit | situc/codegen/python/relate.py:53-75 | in every plan, whether each constraint has a block of its own or all share one function, the bindings that ran before a constraint bound exactly the locals before its own |
| RelationTheorems.ExecutedTraced | situc/relation.py:357-398 | after any bindings that ran, every name holds what direct lookup finds along the path it goes back to, of the kind the plan takes it to be |
| RelationMeaning.RenderMeans | situc/relation.py:516-542 | a rendered test over the locals means the expression with each path read along its local's source, for every operator, short circuits included |
| RelationMeaning.CapturedIff | situc/codegen/c/relate.py:70-85 | in every planned constraint, and in every target, each path is read along itself exactly when no path's root starts with an underscore or is spelled like a local already bound in its scope |
| RelationMeaning.VerdictReads | situc/relation.py:334-412 | a compiled scalar constraint answers exactly when its bindings run, captured roots or not, and then what direct evaluation says with each path read along its source |
| RelationMeaning.ScalarsPreserved | situc/relation.py:334-412 | with no such root it answers what evaluating the relation by direct lookup does, each member access read as the path it is planned under, and answers at all exactly when every path goes through single members to one of known length |
| RelationMeaning.AsReadIff | situc/relation.py:142-160 | reading each access as the path it is planned under changes an expression exactly when a member is taken of something other than a path |
| RelationMeaning.ArraysRead | situc/relation.py:221-268 | an array constraint answers exactly when its bindings run, and then compares the bytes found along the sources of its two paths |
| RelationMeaning.ArraysPreservedIff | situc/relation.py:221-268 | with no such root, comparing two arrays' bytes is what the relation says exactly when its sides are two bare paths; otherwise a side denotes no bytes |
| RelationMeaning.NotAPathIsRead | situc/relation.py:142-160 | a member of something that is not a path has no value in any message, and is accepted and read as the first path of its base with the member after it |
| RelationMeaning.CaptureAnswersAll | situc/relation.py:334-412 | with a parameter spelled like the local bound to `b.sub`, of its own struct, `b.sub.y == root.y` is accepted and holds of every pair of bytes |
| RelationMeaning.UnderscoreUnread | situc/codegen/c/relate.py:82-85 | a constraint with a path rooted at a parameter that starts with an underscore answers of no messages, unless its renamed spelling is a parameter's or a local's bound before |
| RelationWidth.WidenIff | situc/relation.py:316-331 | widening is refused exactly when neither 64-bit type holds every operand, and the type chosen holds them all |
| RelationMachine.ShiftIsBelow64 | situc/relation.py:415-468 | an accepted shift is by 0 to 63 in every message that keeps its bounds |
| RelationWidth.ClosedIff | situc/relation.py:439-489 | the binary operators whose results can leave the type of their operands are exactly four, for `int` and for both 64-bit types |
| RelationWidth.ClosedUnaryIff | situc/relation.py:439-489 | unary minus can always leave it, complement only when unsigned |
| RelationMachine.MachineAgrees | situc/relation.py:439-542 | where every value on the way stays in the type it is computed in and in the one it is brought to, the C test computes the unbounded value, for every operator |
| RelationMachine.SignedIff | situc/relation.py:439-542 | with signed operands the C test is defined exactly there |
| RelationMachine.RingWraps | situc/relation.py:439-542 | a tree of `+`, `-`, `*`, `<<` and `~` in unsigned 64 bits, over parts that stay in their types, computes its unbounded value kept in the type once |
| RelationMachine.ComparisonIff | situc/relation.py:439-542 | comparing two such trees answers as unbounded integers do exactly when they are not brought to the unsigned type or the two values compare alike: equality unless different values are whole turns apart, order unless turns and remainders disagree |
| RelationMachine.LiteralShiftIff | situc/relation.py:516-542 | the test of `p == v << q` is right exactly when the shift is by less than 32 and its result fits an `int`, and undefined otherwise |
| RelationWords.WordsPreserved | situc/relation.py:334-412 | every accepted constraint whose values stay in the types they are computed in and brought to answers in C what the relation says, in all messages that keep their bounds |
| RelationWords.SignedWordsIff | situc/relation.py:334-412 | with signed operands exactly those answer, and all others are undefined |
| RelationWords.RangesSuffice | situc/relation.py:287-313 | where the compiler's interval rules keep every part in its types from the fields' ranges alone, it does so in all of them |
| RelationWords.WordsComparedIff | situc/relation.py:334-412 | an accepted comparison of two such trees answers in C what the relation says exactly when they are not brought to the unsigned type or the two unbounded values compare alike |
| RelationWords.ShiftedLiteralIff | situc/relation.py:516-542 | an accepted `p == v << q` answers in C what the relation says exactly when the amount is below 32 and the result fits an `int`, and is undefined in all other messages |
| RelationMachine.CarryIff | situc/relation.py:439-489 | `a == b + 1` over unsigned values is wrong exactly for 0 and the largest value |
| RelationMachine.BorrowIff | situc/relation.py:439-489 | `a - b < n` over unsigned values is right exactly when nothing is borrowed or what is kept is still below `n` |
| Splice.ApplyDefines | situc/cli.py:437-519 | the flags become edits, or the first refusal, and the edits are made from the back |
| Splice.PartitionIs | situc/cli.py:489-492 | a flag is split at its first `=` and at no other |
| Splice.FlagIff | situc/cli.py:487-513 | a flag is refused exactly for having no name, for a constant that another file declares or none does, or for a value that is no integer; accepted it stands for that constant's span |
| Splice.WrittenIs | situc/cli.py:513 | the value is written in decimal, behind a sign where it is negative |
| Splice.BelowIs | situc/cli.py:517 | the order edits of one span are sorted in is that of Python's strings |
| Splice.BackToFrontIsAtOnce | situc/cli.py:515-519 | for disjoint spans, editing from the back is replacing every span of the original at once |
| Splice.KeepsOutside | situc/cli.py:515-519 | every character outside the spans is kept, as far along as the edits before it moved it |
| Splice.PutsInside | situc/cli.py:515-519 | every replacement stands where its span was |
| Splice.FlagsSubstitute | situc/cli.py:487-519 | flags for different constants, whose values stand apart in the text, replace every one of those values of the original at once |
| Splice.OrderDoesNotMatter | situc/cli.py:487-519 | for such flags all orders are refused or all give the same source |
| Splice.DuplicateIff | situc/cli.py:487-519 | the same constant twice, to two values or to one, leaves the rest of the text alone exactly when the value that is not kept is as long as what it replaced, or shorter at the very end |
| Splice.DuplicateFlags | situc/cli.py:487-519 | two accepted flags for one constant make those two edits of one span |
| AxisOrder.DomainWeakens | situc/capability.py:104-124 | along an axis's values each is strictly stronger than all after it |
| AxisOrder.LayoutOrder | situc/capability.py:48-63 | the values of size, offset, access and mutation and their weakening order |
| AxisOrder.MemoryOrder | situc/capability.py:64-69 | those of address, alignment, representation, atomicity and canonical form |
| AxisOrder.UseOrder | situc/capability.py:70-74 | those of stage, coverage, secrecy and effect |
| Capability.MeetIsGreatest | situc/capability.py:126-143 | the meet of two values is a greatest lower bound under `is_at_least`, on every axis |
| Capability.MeetCommutes | situc/capability.py:126-143 | either order gives values each at least the other |
| Capability.MeetIsOne | situc/capability.py:126-143 | the meet is one of the two values, the left one where they are equally strong, but for covered values, whose tags are put together without repeats |
| Capability.TransitiveIff | situc/capability.py:112-123 | strength passes through a middle value exactly when it is not an alignment that lost its number |
| Capability.SetThenGet | situc/capability.py:155-176 | a value set is the value got, no other axis moves, and setting is refused exactly to strengthen |
| Capability.Meet | situc/capability.py:178-184 | the meet of two vectors is the meet on every axis and never meets the refusal |
| Capability.MeetAll | situc/capability.py:193-202 | the fold of a list of vectors is the fold on every axis |
| Capability.RequirementTransfers | situc/capability.py:193-202 | off the alignment axis a requirement holds of a meet exactly when it holds of every member; on it, exactly a member's smaller number is lost |
| Capability.TagsUnion | situc/capability.py:126-143 | a meet is covered by exactly the tags its members are |
| Revision.Compare | situc/revision.py:58-98 | the report holds exactly the removals, additions and per-axis differences of the two revisions |
| Revision.WorstIs | situc/revision.py:58-98 | worst cases are compared in bits, however they are written |
| Revision.GateIff | situc/revision.py:58-138 | it holds no regression exactly when every old path survives, at least as capable on every axis and with no larger worst case |
| Revision.SwapReverses | situc/revision.py:58-138 | swapping the revisions exchanges weakened with strengthened and added with removed, and nothing else |
| Builtins.Arguments | situc/names.py:337-354 | the depth-counting loop finds a call's arguments and its end, or that it has none |
| Builtins.ArgumentsInvert | situc/names.py:337-354 | it inverts printing, for every list of balanced arguments in any text |
| Builtins.ExpandOne | situc/names.py:192-233 | one pass with a cursor, which never reads what it has written, computes the specified rewriting |
| Builtins.UnwrapParens | situc/names.py:295-315 | one layer of parentheses is removed exactly when the first closes at the very end |
| BuiltinTexts.WrappedIff | situc/names.py:295-315 | a text is unwrapped exactly when it is parentheses around text that never closes more than it has opened |
| BuiltinTexts.CallAtIff | situc/names.py:209-222 | a call is a builtin's name behind no word, `.`, `>` or `:`, with its parenthesis behind it or behind blanks |
| BuiltinTexts.StripIs | situc/names.py:337-354 | an argument loses the blanks at both ends and nothing else |
| BuiltinTexts.UnclosedKept | situc/names.py:222-233 | a text in which no call of the builtin is ever closed is left as it is |
| BuiltinTheorems.ExpansionIsTranslation | situc/names.py:166-275 | expanding the calls in a rendered expression's text gives the structural translation into C, under operators, signs and parentheses, nested calls included, with recursion no deeper than the calls nest |
| BuiltinMeaning.GeneratedMeans | situc/unparse.py:577-670 | for every size expression and message: expanding the calls in its rendering gives a text from which C, by its own precedence and conditional, computes the value the compiler gives the expression, where every rounding divides a sum that is not negative or divides evenly |
| BuiltinMeaning.TextMeans | situc/names.py:166-275 | the translated text of an expression computes its value, nested or not |
| BuiltinMeaning.ChosenMeans | situc/names.py:266-275 | the text emitted for `min` computes the smaller, for `max` the larger, of what its arguments' texts compute |
| BuiltinMeaning.RoundedMeans | situc/names.py:236-251 | the text emitted for `align_up` computes C's `(v + u - 1) / u * u`, which is the compiler's rounding exactly when that sum is not negative or divides evenly |
| BuiltinTheorems.RoundedAgreesIff | situc/names.py:236-251 | the emitted rounding is the compiler's exactly when the sum it divides is not negative or divides evenly |
| Namespaces.Flatten | situc/namespaces.py:43-74 | the schema's declarations become the flattened ones, or are left as they were on a refusal |
| Flattened.DeclaredIff | situc/namespaces.py:91-99 | the names a namespace qualifies are those its structs, enums, token sets, varints, endian markers, codecs, constants and relations declare |
| Flattened.FlattenedIff | situc/namespaces.py:43-74 | a schema flattens exactly when each of its namespaces declares a name, and then holds every item's declarations in order and nothing else, those of a namespace with the names it declares qualified |
| Namespaces.DeclTwice | situc/namespaces.py:102-173 | renaming twice is renaming by both |
| Namespaces.DeclFixedIff | situc/namespaces.py:102-173 | renaming changes nothing exactly when it fixes every name the declaration holds |
| Namespaces.UnqualifyUndoesIff | situc/namespaces.py:77-88 | `unqualify` undoes flattening exactly when no undeclared name carries the prefix |
| Namespaces.WithinRenamed | situc/namespaces.py:58-74 | every flattened schema, whatever its constants, enums and layout, is the renaming of one by the names its namespace has for things |
| Namespaces.FlatteningKeeps | situc/namespaces.py:341-373 | so for every layout of the flattened schema a rewritten expression means what it meant inside the namespace, dotted paths included, in every message with no field spelled like a renamed path |
| Namespaces.MeaningKept | situc/namespaces.py:341-373 | the same for any renaming between two schemas that answer alike |
| Namespaces.PathKeptIff | situc/namespaces.py:341-373 | a name or a dotted path keeps its meaning exactly when the renaming does not move it off a field, a constant or enum member of the same spelling and value aside |
| Varint.LowReturns | runtime/python/situ_runtime.py:915-990 | leb128: a value of up to 7k bits takes at most k bytes and is read back, whatever follows |
| Varint.HighReturns | runtime/python/situ_runtime.py:1242-1300 | be128: the same, with a last permitted byte that is read whole |
| Varint.MarkedReturns | runtime/python/situ_runtime.py:1012-1050 | a sound table's integers are written in no more than the narrowest sufficient width and read back, the bits beside them kept |
| Varint.TablesSound | situc/ast.py:1290-1300 | in every table direct values and markers are apart, the markers fit, and the widths rise to eight bytes |
| Varint.PrefixedReturns | runtime/python/situ_runtime.py:1053-1105 | HPACK's and BER's prefixed integers are read back, the bits beside the prefix kept |
| Varint.QuicReturns | runtime/python/situ_runtime.py:1204-1239 | QUIC's integers of each width are read back within it |
| Varint.DeclarationReturnsIff | situc/ast.py:1329-1382 | with the limits a permitted declaration computes, every value below `2 ** max_bits` is written in at most `max_bytes` and read back, exactly when it is not leb128 with a whole last byte |
| VarintWire.BytesAt | runtime/python/situ_runtime.py:1039-1050 | byte i of a fixed-width number counts 256 to the i under little-endian order, and from the other end under big-endian |
| VarintWire.BytesBack | runtime/python/situ_runtime.py:1012-1028 | a number read from bytes is below 256 to their count and is written back as them, in either order |
| VarintWire.LowAt | runtime/python/situ_runtime.py:980-990 | leb128: byte i is the number's i-th seven bits, with the top bit on all but the last |
| VarintWire.LowLengthIff | runtime/python/situ_runtime.py:939-952 | leb128 takes the fewest groups that hold the value, and `varint_len` is how many |
| VarintWire.HighIs | runtime/python/situ_runtime.py:1266-1300 | be128 writes exactly the values its permitted bytes hold, and each byte is the number's at its place, the last of eight bits where it is read whole |
| VarintWire.DerIs | runtime/python/situ_runtime.py:1006-1050 | DER: a length below 128 is itself, and otherwise 128 plus the fewest bytes that hold it, high byte first; past eight bytes refused |
| VarintWire.CompactSizeIs | runtime/python/situ_runtime.py:1007-1050 | CompactSize: below 253 itself, then 253, 254, 255 for two, four, eight bytes, low byte first |
| VarintWire.LenEncIs | runtime/python/situ_runtime.py:1008-1050 | MySQL: below 251 itself, then 252, 253, 254 for two, three, eight bytes, low byte first |
| VarintWire.CborIs | runtime/python/situ_runtime.py:1009-1050 | CBOR: under the major type's three bits, below 24 itself, then 24 to 27 for one, two, four, eight bytes, high byte first |
| VarintWire.QuicIs | runtime/python/situ_runtime.py:1222-1239 | QUIC: below 2 to the 62, the fewest of one, two, four, eight bytes, which as one number hold which it is in the two bits above the value; past it refused |
| VarintWire.HighMinimalIff | runtime/python/situ_runtime.py:1242-1265 | be128: what is read is written in no more bytes, and in as many exactly where the bytes are the writer's |
| VarintWire.LowMinimalIff | runtime/python/situ_runtime.py:915-937 | leb128: the same |
| VarintWire.MarkedMinimalIff | runtime/python/situ_runtime.py:1012-1028 | a table's integers: the same, with the bits beside them |
| VarintWire.PrefixedMinimalIff | runtime/python/situ_runtime.py:1053-1076 | prefixed integers: the same, with the bits beside the prefix |
| VarintWire.QuicMinimalIff | runtime/python/situ_runtime.py:1204-1219 | QUIC: the same |
| VarintWire.LowReadIff | runtime/python/situ_runtime.py:915-937 | leb128 reads groups that end inside the limit and the data, and nothing else |
| VarintWire.HighReadIff | runtime/python/situ_runtime.py:1242-1265 | be128 reads those too, and where its last byte is whole whatever fills the limit |
| VarintWire.PrefixedReadIff | runtime/python/situ_runtime.py:1053-1076 | a prefixed integer is read where its prefix is not full, or groups that end follow and the value has at most 64 bits |
| VarintWire.LimitIs | situc/parser.py:1515-1592 | a declared `max_bytes` is permitted where it holds every bit and would not without its last byte, read whole exactly where seven bits a byte leave one over; with none declared it is the fewest bytes of seven bits |
| VarintWire.MinimalIff | situc/ast.py:1308-1382 | every permitted declaration's reader takes at most `max_bytes`, and what it reads has the length `minimal` asks for exactly where the bytes are the writer's: one spelling a value |
| VarintWire.FilledIff | situc/ast.py:1340-1357 | some value of the declared width takes all of `max_bytes` exactly under the stated conditions on the table's first marker and the hpack prefix |
| Diagram.Canvas.Flush | situc/doc.py:267-276 | a row is padded to its width, drawn and cleared |
| Diagram.Canvas.Place | situc/doc.py:321-346 | every bit of a member is drawn once, in order, under the label its row calls for, and the row stays in step with the position |
| Diagram.DrawMember | situc/doc.py:278-315 | one member extends the picture by its gap and its bits, or ends it |
| Diagram.Draw | situc/doc.py:250-318 | the lines are those of a picture that shows every bit of the struct once, in order, and no more than the rest of one row; all of them below the ruler are exactly `2 * width + 1` characters |
| Diagram.BitShown | situc/doc.py:250-346 | each bit of each member is shown at its own place, under its name or as a continuation of it |
| Diagram.Lines | situc/doc.py:349-396 | every row, rule, box and slanted line of any picture is exactly `2 * width + 1` characters |
| DiagramText.CenterIs | situc/doc.py:380 | a text that fits has blanks on both sides, as many, the one left over before it in an odd room and after it in an even one |
| DiagramText.CellIs | situc/doc.py:359-380 | a label that fits is in the middle of its cell; one that does not shows all but a last mark from three bits on, and its start below |
| DiagramText.RuleIs | situc/doc.py:355-356 | a rule has a corner at each bit's border and a dash between |
| DiagramText.CellAt | situc/doc.py:267-276 | each cell of a row's line stands over its own bits, between two borders |
| DiagramText.BitAt | situc/doc.py:267-276 | every bit of a row stands under one cell, and the cell is its label's |
| DiagramText.BoxIs | situc/doc.py:383-389 | a box of whole rows is blank but for its name in the middle, with as many rows above it as below or one more |
| DiagramText.ContinuedIs | situc/doc.py:321-346 | a continued label names the member where that fits the cell and says only that it continues where not |

## Left out

- Diagnostics' wording, notes, spans and suggestions: an error is a tag.
- File, process and terminal I/O: the files of an import graph are a finite map, and one that cannot be read or parsed is absent from it.
- Operators the parser never builds: the expression type holds the ones it does.
- `byte_enums` and `token_sets` in the expression environment, which no modelled function consults.
- Inversion.PathsListed: subscripts are spelled by `expr_to_source`, which is a parameter.
- Inversion.FormExact: a constant shift by a negative amount is a Python exception of its own, not a value.
- Lexers.Lexer.ScanString: escapes yield characters rather than the bytes a string is later encoded to.
- DelimiterScan.Scanner.Scan: the limit is at most the buffer's length, which every caller caps it to; Lua's one-based `tvb` accessors are sequence indexing.
- Pipeline.ComposeExpansion: `resolve_signatures`, which rewrites the schema's codecs with the composed signature, is not modelled, nor are the kernel families' tables.
- Relations.Plan: a `Constraint` is a value built at the end of its loop rather than an object filled in place, and the comment text of a binding is not kept; paths are lists of components, since no identifier holds a dot.
- RelationMeaning.RenderMeans: rendered text is the tree that its full parenthesisation is read back as; the spelling of operators per language is not modelled. Python's `and` and `or` hand back an operand where C's hand back a flag, so `(a.x && b.y) == 1` compares `b.y` itself with 1 there, and its `/` and `%` floor where the model truncates, which differs on a negative dividend, as one made of literals alone can be.
- RelationMeaning.CapturedIff: locals are the only names a target's text is taken to add, each from where it is bound. In C and C++ a parameter spelled like the very local its path binds is hidden from that local's initialiser, and one called `err` in C or `e` in C++ meets a name of the predicate's own.
- RelationMeaning.ScalarsPreserved: paths of a bare parameter, which well-formedness refuses before planning, are excluded.
- RelationMachine.MachineAgrees: `int` has 32 bits and the wider literals 64, as on every target with such a `long`; shifting a negative value left is multiplication wherever the result fits, and a literal that no signed type holds has no value. Rust types literals by what stands beside them and Python's integers are unbounded; this is C and C++.
- RelationWords.WordsPreserved: the values of fixed-point and BCD fields are taken to be within their scalar's range.
- RelationWords.RangesSuffice: one way only, since an interval of a whole expression can be wider than the values it has.
- Splice.ApplyDefines: `int(text, 0)` is a parameter.
- BuiltinMeaning.GeneratedMeans: integers without a width, where C's have 64 bits and its reads are held to 2^31 - 1; the reads' own text, `over_fields`, is a parameter that must be one operand and worth the field's value.
- BuiltinTheorems.ExpansionIsTranslation: the C spelling; the reads rewritten inside `popcount` are a parameter that keeps a read a read. Texts are sequences of words and marks rather than of characters.
- Builtins.ExpandOne: the depth of Python's stack is a parameter.
- Namespaces.MeaningKept: names hold no dot and no bracket, as the lexer makes them. A member is its type, the names it refers to, its expressions and the members inside it, without saying which field holds which; enum member values and `when` declarations are not rewritten by the code and are not in the model.
- Varint.DeclarationReturnsIff: the runtime's writers return bytes rather than filling a buffer, so want of room is not modelled, and zigzag is not either; the length a `minimal` declaration asks for is `VarintWire.MinimalIff`'s, and where generated code compares it is not modelled.
- Diagram.Draw: the two ruler lines, which have a leading blank of their own, are a parameter; members come in increasing order without overlap, and one of no fixed size is the last drawn, since nothing after it has a static offset.
- Capability.MeetAll: parameters are numbers, bit counts or words by how their text reads.
- Revision.Compare: the final sort of the report is presentation; which changes it holds is what is proved.
- The rest of the compiler: layout placement, the backends' text, the proto importer, the language server, the editor and the walker, and the lookup tables whose members would be easy.
