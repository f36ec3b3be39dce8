# BoolMinimizer in Dafny

A verified model of the core of BoolMinimizer, a C++ Boolean-function
minimiser. The model covers:

- **the expression front end.**
  - The `Tokenizer`, a class holding the token list and a cursor.
  - The recursive-descent parser `parse` / `parseExpression` / `parseValue`. Its methods work on that tokenizer and are proved equal to spec functions over a token sequence and a position.
  - The `Letter` / `Operation` syntax tree, with `evaluate` as a recursive function over it.
- **truth tables.**
  - The bit-string constructor of `TruthTable`.
  - `createTable`, which evaluates a tree under every interpretation. It has the same body as the tree constructor of `TruthTable`.
- **implicants.** Ternary vectors with entries 0, 1 and 2, where 2 is a don't-care. Their operations are `covers`, `isComplementary`, `countOnes`, `combine`, `operator<` and `operator==`.
- **the Quine–McCluskey front end.**
  - `getFDNF`.
  - The generation loop of `getPrimeImplicants`.

The model is in the source's form. The Tokenizer is a class whose methods modify its fields. Loops are methods with loop invariants; pure read-only scans and the evaluation fold are functions.

The body of `getPrimeImplicants` is split along its own loops into methods:
- `GroupBounds`: the count and prefix-sum loops;
- `CombineAdjacentGroups`, `CombineGroup` and `CombineWithGroup`: the three nested pair loops;
- `AppendUnexcluded`: the loop that appends the unmarked implicants to `prime`;
- `NextStart`: the swap, sort, unique, erase and sort.

Each of these methods is proved against a specification of what it computes.

The central theorem is `Minimizer.GetPrimeImplicants`. It returns exactly the prime implicants of the table, each once. Prime means that no literal can be dropped and leave an implicant. The result covers every true row, no two members are complementary, and an all-false table gives an empty list.

The proof rests on the theory in module `Primality`. Generation g of the loop is exactly the implicants with g dashes, and combining complementary pairs of neighbouring countOnes groups of generation g gives generation g + 1. An implicant is left unmarked exactly when it is prime.

Module `Unparse` is an independent reference definition of rendering a tree as tokens (not as text). `Unparse.ParseRenderRoundTrip` proves that parsing the rendering of any tree the parser can build gives that tree back.

Modules: `Exceptions`, `Bits`, `StringSets`, `Tokens`, `Nodes`, `Parser`, `Unparse`, `Implicants`, `Primality`, `Sorting`, `PairLists`, `TruthTables` and `Minimizer`.

C++ exceptions are modelled as a `Result` value that carries the exception kind and its message: `invalid_argument`, `logic_error` or `out_of_range`. A `std::set<string>` is a strictly ordered sequence of strings. `vector`s are sequences.

## Model

| member | source | states |
|---|---|---|
| Tokens.Tokenizer.constructor | tokens.h:42-43 | a new tokenizer has no tokens and its cursor at 0 |
| Tokens.Tokenizer.Tokenize | tokens.h:45-75 | `logic_error` and no change when tokens are already present; otherwise success iff every character is accepted, the tokens then being those of the input in order; on a rejected character, `invalid_argument` with the tokens of the characters before the first rejected one appended; the cursor is unchanged |
| Tokens.TokensPerCharacter | tokens.h:51-74 | an accepted input gives exactly one token per non-whitespace character, in input order, each the classification of its character |
| Tokens.TokenShapes | tokens.h:52-70 | every token produced is "(" / ")" of its kind, a Letter holding one upper-case letter, or an Operation "v", "^", "!" or "@" |
| Tokens.Tokenizer.HasNext | tokens.h:77 | true iff the cursor is before the end of the tokens |
| Tokens.Tokenizer.Next | tokens.h:79-85 | the token at the cursor, or `out_of_range` when the cursor is at the end |
| Tokens.Tokenizer.PopNext | tokens.h:87-93 | advances the cursor by exactly one when a token remains, otherwise `out_of_range` and no move; the cursor stays within the tokens |
| Nodes.MakeLetter | parser.h:22-27 | succeeds iff the token is a Letter, giving a Letter with its text; `invalid_argument` otherwise |
| Nodes.MakeOperation | parser.h:45-50 | succeeds iff the token is an Operation, giving that operation with no arguments; `invalid_argument` otherwise |
| Nodes.AddArgAppends | parser.h:52-55 | addArg keeps the operator and the earlier arguments and puts the new one last |
| Nodes.AddVariables | minimizer.cpp:12 | the variable set after addVariable is ordered and holds the earlier variables and exactly the Letter names of the tree |
| Nodes.EvalNegation | parser.h:59-61 | "!" is the negation of its first argument; further arguments are ignored |
| Nodes.EvalOr | parser.h:63-66 | "v" is true iff some argument is true |
| Nodes.EvalAnd | parser.h:63-68 | "^" is true iff every argument is true |
| Nodes.EvalXor | parser.h:63-70 | "@" is true iff an odd number of arguments are true |
| Nodes.EvalUnknownOperator | parser.h:57-74 | any other operator yields its first argument's value |
| Nodes.AccumulateKeeps | parser.h:63-71 | no fold branch matches an operator other than "v", "^" and "@", so the accumulator is unchanged |
| Nodes.AccumulateOr | parser.h:65-66 | folding "v" from acc gives acc or some value true |
| Nodes.AccumulateAnd | parser.h:67-68 | folding "^" from acc gives acc and no value false |
| Nodes.AccumulateXor | parser.h:69-70 | folding "@" from acc flips acc once per true value |
| Nodes.AddArgNames | parser.h:52-55 | addArg keeps a tree well formed and adds only the new argument's names |
| Nodes.EvalAddArg | parser.h:52-71 | after addArg the value is one more fold step on the old value and the new argument's value |
| Nodes.EvalFrame | parser.h:29-32 | a tree's value depends only on the values of the names that occur in it |
| Parser.ValueAt | parser.cpp:7-46 | a successful parseValue consumes at least one token and stays within the tokens |
| Parser.ExpressionAt | parser.cpp:48-86 | a successful parseExpression consumes at least one token and stays within the tokens |
| Parser.ChainAt | parser.cpp:70-79 | the chain loop never moves the cursor back or past the end |
| Parser.ParseFrom | parser.cpp:88-98 | a successful parse yields a tree in parser form, in which every Operation has an argument |
| Parser.ParserFormWellFormed | parser.cpp:24-26 | trees the parser builds have an argument in every Operation |
| Parser.ValueForm | parser.cpp:18-43 | parseValue builds only Letters, one-argument "!" nodes and parenthesised trees in parser form |
| Parser.ExpressionForm | parser.cpp:58-80 | parseExpression builds trees in parser form |
| Parser.ChainForm | parser.cpp:70-79 | the chain loop keeps the tree in parser form |
| Parser.ParseOutcome | parser.cpp:88-97 | no tokens gives "empty string"; tokens left after the expression give "too many tokens"; success iff the expression consumes every token, returning its tree |
| Parser.DoubleNegation | parser.cpp:12-18 | a second "!" right after the first throws "letter or ( expected" |
| Parser.NoValueStart | parser.cpp:12-18 | after the optional "!", a ")" or an operator (a second "!" included) throws "letter or ( expected" |
| Parser.MissingParenthesis | parser.cpp:32-34 | a group followed by a token other than ")" throws ") missing" |
| Parser.ValueAtEnd | parser.cpp:9-32 | a value cut off by the end of the tokens (nothing left, "!" last, or a group whose expression reaches the end) throws `out_of_range`, not ") missing" |
| Parser.MixedOperators | parser.cpp:75-76 | a different operator later in a chain throws "only the same operation allowed" |
| Parser.SingleValue | parser.cpp:59-62 | a value not followed by an Operation is the whole expression, the next token left unconsumed |
| Parser.ChainEnds | parser.cpp:70-73 | the chain stops at the first non-Operation token with the arguments so far |
| Parser.ParseValue | parser.cpp:7-46 | the method on the tokenizer returns what ValueAt gives and leaves the cursor after the value, or throws the same exception |
| Parser.ParseExpression | parser.cpp:48-86 | the method, with its while loop, returns what ExpressionAt gives and leaves the cursor after the expression, or throws the same exception |
| Parser.Parse | parser.cpp:88-98 | the method returns ParseFrom of the tokens from the cursor; on success every token is consumed |
| Unparse.ValueRoundTrip | parser.cpp:7-46 | parseValue applied to the rendering of a tree in parser form gives that tree and the position just after it |
| Unparse.ExprRoundTrip | parser.cpp:48-86 | parseExpression applied to the rendering of a tree in parser form gives that tree |
| Unparse.ChainRoundTrip | parser.cpp:64-80 | a chain "a op b op c ..." parses to one Operation whose arguments are the values in order |
| Unparse.ParseRenderRoundTrip | parser.cpp:88-98 | parsing the rendering of any tree in parser form gives back exactly that tree |
| StringSets.Insert | minimizer.h:53-54 | inserting into an ordered set keeps it ordered and adds exactly the new element |
| StringSets.OrderedDistinct | minimizer.h:17 | an ordered set holds no element twice |
| TruthTables.NatToStringInjective | minimizer.h:54 | different numbers have different decimal strings |
| TruthTables.VarNameInjective | minimizer.h:54 | the names "x1", "x2", ... are pairwise different |
| TruthTables.VariableNames | minimizer.h:53-54 | the variable set is ordered, has n elements and holds exactly "x1" ... "xn" |
| TruthTables.LengthSearch | minimizer.h:47-48 | the search for n stops at the only power of two, if any, that equals the length (n at least 1) |
| TruthTables.FromBits | minimizer.h:44-62 | succeeds iff the string is made of '0' and '1' and its length is 2^n with n at least 1; "wrong format" otherwise; on success the variables are exactly x1..xn and row i is true iff character i is '1' |
| TruthTables.Interp | minimizer.cpp:18-24 | the interpretation for row i maps exactly the variables, the k-th variable in set order to bit k of i |
| TruthTables.InterpMatches | minimizer.cpp:19-24 | the interpretation map rebuilt for every row equals that interpretation |
| TruthTables.CreateTable | minimizer.cpp:7-28 | a valid table with exactly the tree's variables and 2^n rows, row i being the tree's value under the interpretation of i |
| Implicants.FromMinterm | minimizer.h:79-84 | the constructor loop builds the minterm of s over n variables |
| Implicants.MintermShape | minimizer.h:79-84 | the minterm has length n, entry i is bit i of s, and it has no 2 |
| Implicants.MintermInjective | minimizer.h:79-84 | different indices below 2^n give different minterms |
| Implicants.MintermIndex | minimizer.h:79-84 | every 0/1 vector of length n is the minterm of an index below 2^n |
| Implicants.Covers | minimizer.h:86-92 | covers holds iff every non-2 entry equals the other implicant's entry |
| Implicants.CoversReflexive | minimizer.h:86-92 | every implicant covers itself |
| Implicants.CoversTransitive | minimizer.h:86-92 | covering is transitive |
| Implicants.CoversAllDashes | minimizer.h:86-92 | an all-2 implicant covers everything |
| Implicants.ComplementaryFromIff | minimizer.h:96-104 | the counting scan ends with k = 1 exactly when one position is a 0/1 mismatch and all others equal, never with k of 2 or more |
| Implicants.ComplementaryIff | minimizer.h:94-105 | isComplementary holds iff there is a position with a 0/1 mismatch and all other positions are equal |
| Implicants.DiffersOnlyAtUnique | minimizer.h:94-105 | the mismatch position is unique |
| Implicants.ComplementarySymmetric | minimizer.h:94-105 | isComplementary is symmetric |
| Implicants.ComplementaryIrreflexive | minimizer.h:94-105 | no implicant is complementary to itself |
| Implicants.ComplementaryFlip | minimizer.h:94-105 | each of a complementary pair is the other with the mismatched bit flipped |
| Implicants.ComplementaryCounts | minimizer.h:94-107 | complementary implicants differ in countOnes by exactly one and have the same number of 2s |
| Implicants.Combine | minimizer.h:109-116 | the combine loop yields the combination of the two implicants |
| Implicants.CombinedIsDash | minimizer.h:109-116 | the combination of a complementary pair equals each parent with the mismatch position set to 2 |
| Implicants.CombinedProperties | minimizer.h:109-116 | the combination is valid, covers both parents, is complementary to neither, and has one 2 more |
| Implicants.CombinedCovers | minimizer.h:109-116 | the combination covers a minterm iff one of its parents does |
| Implicants.LessIff | minimizer.h:133-141 | operator< holds iff at the first differing position the left entry is smaller |
| Implicants.LessIrreflexive | minimizer.h:133-141 | operator< is irreflexive |
| Implicants.LessTransitive | minimizer.h:133-141 | operator< is transitive |
| Implicants.LessTotal | minimizer.h:133-141 | of two different implicants of equal length one is smaller |
| Implicants.EqualIff | minimizer.h:144-147 | operator== holds iff the states are equal element-wise |
| Sorting.SortByOnes | minimizer.cpp:42-44 | the countOnes sort yields a permutation sorted non-decreasingly by countOnes, without duplicates if the input has none |
| Sorting.SortLex | minimizer.cpp:94 | the operator< sort yields a permutation sorted by operator< |
| Sorting.Unique | minimizer.cpp:95-96 | unique followed by erase leaves a strictly increasing sequence with the same elements |
| Sorting.StrictlySortedDistinct | minimizer.cpp:95-96 | a strictly increasing sequence has no duplicates |
| Primality.MintermImplicant | minimizer.cpp:36-38 | the minterm of a true row is an implicant without 2s |
| Primality.GenerationZero | minimizer.cpp:36-38 | the implicants without 2s are exactly the minterms of the true rows |
| Primality.CombinedImplicant | minimizer.cpp:76-78 | combining two complementary implicants gives an implicant with one 2 more (soundness of combine) |
| Primality.NextGeneration | minimizer.cpp:69-83 | the implicants with g + 1 dashes are exactly the combinations of complementary pairs of implicants with g dashes whose countOnes differ by one |
| Primality.PrimeIffUnpaired | minimizer.cpp:85-87 | an implicant is prime iff no implicant is complementary to it |
| Primality.EmptyGenerationEndsPrimes | minimizer.cpp:89-90 | once no implicant has g dashes, every implicant has fewer than g |
| Primality.PrimesCoverTrueRows | minimizer.cpp:75-87 | every true row is covered by a prime implicant |
| Primality.PrimesNotComplementary | minimizer.cpp:69-87 | no two prime implicants are complementary |
| Primality.AllFalseNoImplicant | minimizer.cpp:51 | a table without a true row has no implicant |
| Minimizer.TrueMintermsMembers | minimizer.cpp:36-39 | the collected minterms are exactly those of the true rows |
| Minimizer.TrueMintermsDistinct | minimizer.cpp:36-39 | the collected minterms are pairwise different |
| Minimizer.GetFDNF | minimizer.cpp:30-47 | a permutation of the true rows' minterms, sorted by countOnes, and without duplicates when the table has at most 2^n rows |
| Minimizer.SortedBelow | minimizer.cpp:59-73 | in a sequence sorted by countOnes the first Below(v) elements are exactly those with fewer than v ones |
| Minimizer.InGroup | minimizer.cpp:69-73 | index range [count[v], count[v+1]) lies within the sequence and holds the implicants with v ones |
| Minimizer.BelowAll | minimizer.cpp:59-67 | with at most n ones, every element has fewer than n + 1 |
| Minimizer.GroupBounds | minimizer.cpp:59-67 | after counting, prefix sums and the leading 0, count[v] is the number of implicants with fewer than v ones, for v up to n + 1 |
| Minimizer.CombineWithGroup | minimizer.cpp:75-80 | the innermost loop lists every complementary partner of start[first] in the next group, appending its combination and marking both |
| Minimizer.CombineGroup | minimizer.cpp:74-81 | the loop over group i lists every complementary pair from group i to group i + 1 |
| Minimizer.CombineAdjacentGroups | minimizer.cpp:69-83 | next holds exactly the combinations of complementary pairs of neighbouring groups, excluded marks exactly the implicants with a complementary partner |
| Minimizer.NextMeaning | minimizer.cpp:76-77 | with every pair listed, the combinations are those of all complementary neighbouring pairs |
| Minimizer.ExcludedMeaning | minimizer.cpp:78 | with every pair listed, an implicant is marked iff it has a complementary partner |
| Minimizer.KeptMembers | minimizer.cpp:85-87 | the appended implicants are exactly the unmarked ones |
| Minimizer.KeptDistinct | minimizer.cpp:85-87 | the appended implicants are pairwise different when start is |
| Minimizer.AppendUnexcluded | minimizer.cpp:85-87 | prime grows by exactly the unmarked implicants, in order |
| Minimizer.StartIsGenerationZero | minimizer.cpp:51 | the first start is exactly the implicants without 2s |
| Minimizer.NextIsGeneration | minimizer.cpp:69-83 | the combinations found in generation g are exactly generation g + 1 |
| Minimizer.KeptArePrime | minimizer.cpp:85-87 | the unmarked members of generation g are exactly the prime implicants with g dashes |
| Minimizer.AddGeneration | minimizer.cpp:85-87 | after a generation, prime holds exactly the primes with at most g dashes, each once |
| Minimizer.AllPrimesFound | minimizer.cpp:89-90 | when next is empty, prime holds every prime implicant |
| Minimizer.GenerationBound | minimizer.cpp:56-100 | a nonempty generation g has g at most n, which bounds the number of generations |
| Minimizer.NextStart | minimizer.cpp:92-99 | the new start is sorted by countOnes, has no duplicates and holds exactly the members of next |
| Minimizer.PrimeListFacts | minimizer.cpp:49-103 | a list of exactly the prime implicants covers every true row, has no complementary pair, and is empty for an all-false table |
| Minimizer.GetPrimeImplicants | minimizer.cpp:49-103 | returns exactly the prime implicants, each once, covering every true row, no two complementary, none for an all-false table |

## Left out

- Printing is presentation only and is not modelled: `operator<<` for Implicant, Token, Tokenizer and TokenType, `prettyPrint`, and `Node::print` / `Operation::print`.
- main.cpp is stream I/O, and it calls functions whose bodies are not in the repository. It is not part of this model.
- `minimize`, Petrick's method and `totalLength` are only declared, with no bodies to model.
- `Node::addVariable` is called but never declared. `Nodes.AddVariables` assumes it inserts the names of the tree's Letters into the set.
- `std::sort` is modelled by insertion sorts. The contracts state only sortedness and permutation, not the order std::sort leaves within a countOnes group.
- `isupper` and `isspace` are taken as ASCII 'A'..'Z' and ASCII whitespace, with no locale.
- Implicants.FromMinterm: requires n <= 31 instead of modelling the overflow of the int shift `1 << i`.
- Minimizer.GetFDNF: requires at most 31 variables and fewer than 2^31 rows instead of modelling the overflow of its int index and of the Implicant constructor.
- TruthTables.FromBits: requires a string of at most 2^30 characters instead of modelling the overflow of `1 << n` in the length search.
- TruthTables.CreateTable: does not model that `(size_t) 1 << n` is undefined for 64 or more variables; any number of variables gives 2^n rows.
- Minimizer.GetPrimeImplicants: requires at most 30 variables and a table of 2^n rows. Every evaluating or bit-string constructor gives that size; the two-argument `TruthTable(vars, table)` constructor does not enforce it.
- Nodes.Eval: requires every Operation to have an argument and every variable to be in the interpretation. Beyond these, `args[0]` and `find(name)->second` are undefined behaviour, not exceptions; trees built by the parser and tables built by `createTable` always satisfy both.
- Implicants.Covers: the binary implicant operations require the second implicant to be at least as long as the first. For shorter ones the source reads past the end of a vector or throws `out_of_range` from `at`. Every call in the minimiser compares implicants of equal length.
- Tokens.Tokenizer.Tokenize: the `input` field of the class is never read and is not modelled.
- Ownership through `unique_ptr` is not modelled: trees are immutable values.
