# ENC1 clause generation for Bayesian networks, in Dafny

This project models `bayes_to_cnf_encoding.py`, which turns a discrete Bayesian
network into a list of clause strings ("ENC1"):

- **indicator lines**, for every variable v of domain size d:
  - one at-least-one line, `False||lambda_v_0||...||lambda_v_<d-1>`;
  - one at-most-one line, `!lambda_v_i||!lambda_v_j`, for every pair of values i < j.
- **parameter lines**, for every variable v:
  - without parents: `theta_v_x` for every value x;
  - with parents: for every configuration of the parents, and then for every
    value x, the line `lambda_p1_c1||...||lambda_pk_ck<=>theta_v_x`.
- **configurations**: these come from a recursive enumerator over a shared
  index array. Every position ranges over 0 .. M-1, where M is the largest
  parent domain size. A finished tuple is kept unless one of its entries is
  greater than its own parent's domain size.

The model follows the code, not the textbook ENC1 encoding:

- configuration values are 0-based, not 1-based;
- the filter lets an entry equal to its parent's domain size through, so a
  parent can get a value it does not have (`OffByOneWitness`);
- parent literals are positive;
- theta names carry the variable and its value only, not the configuration;
- each parented line is a single `...<=>theta` string, not expanded into clauses;
- the at-least-one line starts with the text `False`;
- the number of configurations is not the product of the parent domain
  sizes but the product of min(d + 1, M) over them, d a parent's domain size
  and M the largest (`ConfigsCount`).

How the code is modelled:

- **Structure.** Clauses are a small datatype (`Clauses.Atom`, `Literal`,
  `Clause`) with a rendering to strings, including Python's decimal `str` of a
  natural number (`Decimal`).
- **Specification.** Each operation of the program is a method with the
  program's loops. Its postcondition ties the strings it builds to the
  rendering of a pure specification function. The properties of the output
  (counts, order, exact texts) are lemmas about those functions.
- **Configurations.** The enumerator is a recursive method over an `array<nat>`
  that every level of the recursion shares and mutates, as the program's
  `indices` list is. It is specified by a function of the same shape
  (`Enumerate`). That function is proved equal to a declarative one: the
  admissible tuples among all tuples over 0 .. M-1 (`Configs`).
- **Network.** The network is a sequence of variables in the dictionary's
  iteration order. Each variable has a name, a domain size and an ordered
  list of parents.

## Model

| member | source | states |
|---|---|---|
| Decimal.NatToString | bayes_to_cnf_encoding.py:20 | the numeral of a number is non-empty and made of decimal digits only |
| Decimal.NatToStringCanonical | bayes_to_cnf_encoding.py:20 | the numeral starts with `0` exactly for 0: no leading zeros, so with the round trip it is the shortest numeral, as `str` gives |
| Decimal.DecimalRoundTrip | bayes_to_cnf_encoding.py:20 | reading the numeral back as a decimal number gives the number again |
| Decimal.NatToStringInjective | bayes_to_cnf_encoding.py:20 | two values with the same numeral are equal, so value suffixes never collide |
| BayesNet.CardOf | bayes_to_cnf_encoding.py:45 | the domain size looked up by name belongs to a variable of that name in the network |
| BayesNet.ParentSizes | bayes_to_cnf_encoding.py:43-47 | one domain size per parent, in parent order, each the domain size of some variable of the network bearing that parent's name |
| Clauses.FalseOrTextIsConcat | bayes_to_cnf_encoding.py:17-21 | the string accumulated from `False` by appending `\|\|l` per literal is `False` followed by all the pieces in order |
| Clauses.JoinCons | bayes_to_cnf_encoding.py:59 | joining two or more parts puts the first part, the separator, then the join of the rest |
| Clauses.AtomNameInjective | bayes_to_cnf_encoding.py:55-61 | two atoms with the same `lambda_`/`theta_` name are the same atom: kind, variable and value are all recoverable |
| Clauses.LiteralTextInjective | bayes_to_cnf_encoding.py:26-28 | two literals with the same text have the same polarity and atom |
| Indicators.IndicatorClauses | bayes_to_cnf_encoding.py:8-31 | the lines built are exactly the rendering of the indicator clauses of every variable, in network order |
| Indicators.AtLeastOneLine | bayes_to_cnf_encoding.py:17-22 | the accumulated string is the rendering of `False` or-ed with lambda_v_x for x = 0 .. d-1 |
| Indicators.AtMostOneLines | bayes_to_cnf_encoding.py:24-29 | the nested loops emit the at-most-one clause of every pair in `Pairs(d)`, in order |
| Indicators.RowLines | bayes_to_cnf_encoding.py:25-29 | the inner loop emits the pairs (i, j) for j = i+1 .. d-1, in order |
| Indicators.PairsExactly | bayes_to_cnf_encoding.py:24-29 | (a, b) is a pair exactly when a < b < d; pairs strictly increase lexicographically (no repeats, never i = j); there are d(d-1)/2 of them |
| Indicators.IndicatorCount | bayes_to_cnf_encoding.py:15-29 | a variable gets 1 + d(d-1)/2 indicator clauses: the at-least-one clause first, then only at-most-one clauses of pairs i < j < d |
| Indicators.AtLeastOneText | bayes_to_cnf_encoding.py:17-21 | the at-least-one line is `False` followed by `\|\|lambda_v_x` for x = 0 .. d-1 ascending |
| Indicators.AtLeastOneTextSingle | bayes_to_cnf_encoding.py:17-22 | for d = 1 the at-least-one line is `False\|\|lambda_v_0` |
| Indicators.AtMostOneLineText | bayes_to_cnf_encoding.py:24-29 | the n-th at-most-one line is `!lambda_v_i\|\|!lambda_v_j` for the n-th pair, with i < j < d |
| Indicators.IndicatorSpecAppend | bayes_to_cnf_encoding.py:15-29 | indicator clauses are grouped per variable: those of a concatenated network are those of the first part then those of the second |
| ParentConfigs.MaxOf | bayes_to_cnf_encoding.py:79-84 | the maximum is at least every size and is 0 or one of the sizes |
| ParentConfigs.MaxListLength | bayes_to_cnf_encoding.py:79-84 | the running maximum from 0 ends at the largest domain size |
| ParentConfigs.Configurations | bayes_to_cnf_encoding.py:71-98 | the recursion appends to what was found the admissible tuples whose positions from `depth` on are those held on entry, and leaves those positions unchanged; every position below `depth` ends at M-1 when M > 0 and is left as it was when M = 0 |
| ParentConfigs.KeepIfAdmissible | bayes_to_cnf_encoding.py:86-94 | a copy of the indices is appended exactly when no entry exceeds its parent's domain size |
| ParentConfigs.EnumerateFromTop | bayes_to_cnf_encoding.py:96-98 | the enumeration from the top with nothing fixed equals the admissible tuples among all tuples over 0 .. M-1 |
| ParentConfigs.ConfigsExactly | bayes_to_cnf_encoding.py:86-97 | a tuple is emitted if and only if it has one entry per parent, every entry is below M, and no entry exceeds its own parent's domain size |
| ParentConfigs.ConfigsOrdered | bayes_to_cnf_encoding.py:96-98 | the base-M value strictly increases along the emitted list: position 0 varies fastest and no tuple repeats |
| ParentConfigs.ConfigsUniform | bayes_to_cnf_encoding.py:86-98 | when all k parents have domain size d, all d^k tuples are emitted and the n-th is n in base d |
| ParentConfigs.ConfigsCount | bayes_to_cnf_encoding.py:89-97 | the number of configurations is the product of min(d + 1, M) over the parents' domain sizes d |
| ParentConfigs.TwoParentCount | bayes_to_cnf_encoding.py:89-97 | with two parents the count is the product of the two capped sizes |
| ParentConfigs.OffByOneWitness | bayes_to_cnf_encoding.py:89-91 | for parent sizes 2 and 3 the tuple (2, 0) is emitted though the first parent has values 0 and 1 only, and 9 configurations are emitted where 6 combinations exist |
| ParentConfigs.TuplesRank | bayes_to_cnf_encoding.py:96-98 | the n-th tuple over 0 .. M-1 in enumeration order denotes n in base M |
| ParentConfigs.TuplesComplete | bayes_to_cnf_encoding.py:96-98 | every tuple of length k over 0 .. M-1 is reached by the enumeration |
| Parameters.ParameterClauses | bayes_to_cnf_encoding.py:33-69 | the lines built are exactly the rendering of the parameter clauses of every variable, in network order |
| Parameters.VariableLines | bayes_to_cnf_encoding.py:41-68 | one variable's lines: configuration lines when it has parents, bare thetas otherwise |
| Parameters.PriorLines | bayes_to_cnf_encoding.py:65-68 | the loop emits theta_v_x for x = 0 .. d-1 |
| Parameters.ParentedLines | bayes_to_cnf_encoding.py:53-63 | the loop over configurations emits each configuration's lines in turn |
| Parameters.JoinedParents | bayes_to_cnf_encoding.py:54-59 | the parent half is the positive parent literals `lambda_p_c` joined with `\|\|` |
| Parameters.ConfigLines | bayes_to_cnf_encoding.py:60-63 | one configuration gives `<parents><=>theta_v_x` for every value x, ascending |
| Parameters.ConfigRowsIndex | bayes_to_cnf_encoding.py:53-63 | line c*d + y belongs to configuration c and value y, and there are (number of configurations) * d lines |
| Parameters.ParentlessParameters | bayes_to_cnf_encoding.py:65-68 | a parentless variable contributes exactly d lines, the x-th being `theta_v_x` |
| Parameters.ParentedParameters | bayes_to_cnf_encoding.py:53-63 | a parented variable contributes (number of configurations) * d lines; line c*d + y is the joined parent literals of configuration c, `<=>theta_v_`, then y |
| Parameters.ParentedCount | bayes_to_cnf_encoding.py:49-63 | a parented variable's line count is its domain size times the product of min(d_i + 1, M) over its parents |
| Parameters.ParametersOverAppend | bayes_to_cnf_encoding.py:41-69 | parameter lines are grouped per variable: those of a concatenation are those of the first part then those of the second |
| Enc1.Enc1Encoding | bayes_to_cnf_encoding.py:100-118 | the result is the indicator lines followed by the parameter lines, nothing added, dropped or reordered |
| Enc1.IndicatorTotalCount | bayes_to_cnf_encoding.py:15-29 | the indicator list of a network has the sum over its variables of 1 + d(d-1)/2 lines |
| Enc1.SingleBinaryVariable | bayes_to_cnf_encoding.py:8-69 | a lone two-valued variable A is encoded as `False\|\|lambda_A_0\|\|lambda_A_1`, `!lambda_A_0\|\|!lambda_A_1`, `theta_A_0`, `theta_A_1` |
| Enc1.TwoValuedParentConfigs | bayes_to_cnf_encoding.py:86-98 | the configurations of a single two-valued parent are [0] then [1] |
| Enc1.TwoValuedParentLines | bayes_to_cnf_encoding.py:53-63 | a two-valued variable with one two-valued parent gets four lines, configuration outer and value inner |
| Enc1.TwoNodeChain | bayes_to_cnf_encoding.py:41-63 | in a chain A -> B of two-valued variables, B's lines are `lambda_A_0<=>theta_B_0`, `lambda_A_0<=>theta_B_1`, `lambda_A_1<=>theta_B_0`, `lambda_A_1<=>theta_B_1` |

## Left out

- Reading the network with `BIFReader` and the `pgmpy` model classes (bayes_to_cnf_encoding.py:4-5) are foreign library calls. Their output, `get_values()` and `get_parents()`, is an input here: a sequence of variables with names, domain sizes and parent lists.
- The timer and the message printed with the elapsed time (bayes_to_cnf_encoding.py:112, 116-117) are side effects with no bearing on the result.
- The value lists built for each parent (bayes_to_cnf_encoding.py:46) are modelled by their lengths, the only thing the enumerator reads.
- The dictionary of variables is a sequence in iteration order; a lookup by name returns the first variable of that name.
- A parent that is not a variable of the network makes the program fail on `len(None)`. Here it is excluded by a precondition (`ParentsPresent`, `ParentsIn`) rather than modelled as an error.
- For a variable of domain size 0 the program appends the boolean `False` rather than a string. The model renders that entry as the text `False`, which is what `str` makes of it.
- What the clauses mean (weighted model counting, probabilities) is not modelled, and neither is parsing the `||` and `<=>` strings back into formulas; the program does neither.
