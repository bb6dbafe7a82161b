# gotest matchers in Dafny

This project models the core matchers of the Go assertion library gotest:

- the container matchers of `container_matchers.go`:
  - `Contains`, `ElementsAreUnordered` and `ElementsAre`;
  - `MapIs`, `MapContains`, `MapIsKVs` and `MapContainsKVs`;
  - `Len` and `Empty`;
  - the bipartite matching (`matcherFlowGraph`) behind the unordered and key/value matchers.
- the string matchers of `string_matchers.go`.
- the ordering matchers `Gt`, `Lt`, `Ge` and `Le` of `comparison_matchers.go`.
- `getPackageName` of `eq.go`.

A Go value of dynamic type is a `GoValues.Value`: a sized integer, a string, a `[]byte`, a slice, a map given as its entries, or an opaque value that may carry a length. A matcher is a `GoValues.Matcher`: a predicate, a description and an optional failure explanation.

The unordered matchers are layered:

- `Bipartite` defines what the search has to decide: a matching that gives every matcher its own value, or one that also uses every value.
- `KuhnSearch` states the augmenting-path search as functions. It proves the search finds such a matching exactly when one exists.
- `FlowGraph.MatcherFlowGraph` is the Go graph as a class over arrays. Its methods are proved equal to those functions.
- `Unordered` builds the match matrix, decides `Matches` and renders `ExplainFailure`.

## Model

| member | source | states |
|---|---|---|
| Unordered.MatrixOf | container_matchers.go:430-438 | cell (i, j) of the match matrix is whether matcher i accepts element j, for every matcher and element |
| Unordered.BuildMatrix | container_matchers.go:430-438 | the nested loop fills exactly the matrix `MatrixOf` describes |
| Unordered.EmptyRows | container_matchers.go:546-570 | the listed matchers are, in increasing order, exactly those that accept no value |
| Unordered.EmptyColumns | container_matchers.go:546-570 | the listed values are, in increasing order, exactly those no matcher accepts |
| Unordered.ListEmptyRows | container_matchers.go:545-555 | the labelled loop that skips a matcher at its first accepted value lists exactly the matchers `EmptyRows` describes |
| Unordered.ListEmptyColumns | container_matchers.go:557-567 | the labelled loop that skips a value at its first accepting matcher lists exactly the values `EmptyColumns` describes |
| Unordered.ValidateMatchMatrix | container_matchers.go:546-570 | the two loops return exactly the unmatchable matchers and the unmatched values |
| Unordered.PairingNeedsEnoughValues | container_matchers.go:424-428 | a matching that gives each matcher its own value needs at least as many values as matchers, so the length shortcut loses nothing |
| Unordered.EmptyRowBlocks | container_matchers.go:442-445 | a matcher that accepts no value rules out a match in both modes |
| Unordered.EmptyColumnBlocks | container_matchers.go:446-448 | in full mode, a value no matcher accepts rules out a match |
| Unordered.UnorderedMatchesIff | container_matchers.go:420-457 | Matches accepts exactly an iterable whose elements admit an injective matching of all matchers, which in full mode also uses every element |
| Unordered.Matches | container_matchers.go:420-457 | the method's early returns and solve decide exactly that matching property |
| Unordered.FullMatchImpliesContains | container_matchers.go:134-140 | whatever ElementsAreUnordered accepts, Contains of the same matchers accepts |
| Unordered.NoMatchers | container_matchers.go:420-457 | with no matchers, Contains accepts every iterable and ElementsAreUnordered only empty ones |
| Unordered.AssignedPairs | container_matchers.go:532-537 | the reported (value, matcher) pairs are, in value order, exactly the assigned entries of valToMatcher |
| Unordered.AssignedPairsComplete | container_matchers.go:532-537 | every value that holds a matcher appears among the reported pairs |
| Unordered.Unpaired | container_matchers.go:503-508 | each unmatchable matcher is reported with its own description |
| Unordered.ListProblems | container_matchers.go:500-516 | the loops produce one problem line per unmatchable matcher, then one per unmatched value in full mode |
| Unordered.ListPairs | container_matchers.go:532-537 | the loop produces one line per assigned value, in value order |
| Unordered.ExplainFailure | container_matchers.go:476-544 | the method always explains, and its text is the rendering of the diagnosis |
| Unordered.Diagnose | container_matchers.go:476-544 | which tier of ExplainFailure applies: not iterable, wrong count in full mode, too few elements, unmatchable matchers or values, or the closest match; UnmatchableIsExact and ClosestFromSolve state what the last two mean |
| Unordered.Render | container_matchers.go:476-544 | the text of each tier in Go's words; ExplainFailure is proved to return Render(Diagnose(...)), and RenderClosest and ListProblems state the joined texts |
| Unordered.ExplainPairing | container_matchers.go:490-539 | on iterable values, the text is the rendering of the pairing diagnosis |
| Unordered.RenderClosest | container_matchers.go:525-539 | the closest-match text is the header followed by the pairs joined with "; " |
| Unordered.UnpairedSound | container_matchers.go:501-508 | every reported matcher accepts no element, and the reports come in increasing matcher order |
| Unordered.UnpairedComplete | container_matchers.go:501-508 | every matcher that accepts no element is reported |
| Unordered.EmptyColumnsExact | container_matchers.go:510-516 | the reported values are exactly the elements no matcher accepts |
| Unordered.UnmatchableIsExact | container_matchers.go:500-520 | when the explanation names unmatchable matchers or values, Matches rejects, and the names are exactly the blocking ones |
| Unordered.ClosestFromSolve | container_matchers.go:522-530 | the closest-match explanation reports the count the solved graph stores |
| Unordered.SolvedPairs | container_matchers.go:532-537 | every pair the solved graph reports joins a value to a matcher that accepts it |
| Unordered.ClosestIsPairing | container_matchers.go:522-539 | the closest-match pairs are acceptances, each value and each matcher used at most once |
| Unordered.Descriptions | container_matchers.go:459-474 | one description per matcher, in order |
| Unordered.UnorderedString | container_matchers.go:459-474 | the description starts with the mode's prefix and " [" and ends with "]"; with no matchers it is "<prefix> []", and with one it is "<prefix> [<description>]" |
| Unordered.UnorderedStringAppend | container_matchers.go:459-474 | one more matcher replaces the closing "]" with "; ", its description and "]"; with the one-matcher case, this fixes the description for every list of matchers |
| Unordered.ModesDescribedApart | container_matchers.go:459-474 | Contains and ElementsAreUnordered never share a description |
| Unordered.Contains | container_matchers.go:84-90 | Contains accepts exactly an iterable with an injective matching of all matchers into its elements |
| Unordered.ElementsAreUnordered | container_matchers.go:134-140 | ElementsAreUnordered accepts exactly an iterable with a perfect matching, and only what Contains accepts |
| Bipartite.AssignmentNeedsEnoughValues | container_matchers.go:424-428 | an injective assignment has no more matchers than values |
| Bipartite.CoversIffSquare | container_matchers.go:424-453 | an injective assignment uses every value exactly when there are as many matchers as values |
| Bipartite.FullPairingIffSquare | container_matchers.go:424-453 | a perfect matching exists exactly when an injective matching exists and the counts are equal, which is what `matchersMatched == len(matchers)` tests |
| Bipartite.InverseCountsAgree | container_matchers.go:572-583 | while the two slices invert each other, as many matchers hold values as values hold matchers |
| Bipartite.CompleteIsAssignment | container_matchers.go:572-583 | a consistent graph in which every matcher holds a value is an injective assignment |
| Bipartite.ClosedSetBlocksAssignment | container_matchers.go:630-659 | when a failed search leaves a set of values whose holders accept no other value, no injective assignment exists (Hall's condition) |
| KuhnSearch.FirstFree | container_matchers.go:633-641 | the first pass picks the first value that the matcher accepts and nobody holds |
| KuhnSearch.Try | container_matchers.go:630-659 | tryAssign only marks values visited, and with visited sized by the values it never indexes past its end |
| KuhnSearch.Rest | container_matchers.go:643-657 | the second loop of tryAssign, with the `matches && !visited[j]` test in Go's order and an index past visited as OutOfRange; it only adds visited marks, keeps the pairing when it fails, and stays in range when visited covers the values; what it achieves is stated by TryCorrect |
| KuhnSearch.TryCorrect | container_matchers.go:630-659 | tryAssign either moves the matcher along an augmenting path, keeping every earlier matcher assigned, or leaves a closed set of visited values and changes nothing |
| KuhnSearch.SolveFromCorrect | container_matchers.go:601-628 | each round of Solve keeps the graph consistent and assigns every matcher up to the round, unless no injective assignment exists |
| KuhnSearch.SolveFrom | container_matchers.go:612-618 | the loop of Solve from matcher k on, each search with a fresh visited slice of a given length; it stops at the first out-of-range index and never does so when visited covers the values; its meaning is stated by SolveFromCorrect |
| KuhnSearch.SolveWith | container_matchers.go:601-618 | Solve with its early return when there are no matchers or no values; it completes whenever visited covers the values |
| KuhnSearch.SolveCorrected | container_matchers.go:601-628 | Solve with visited sized by the values, which always completes with well-shaped slices; SolveDecides states what its pairing decides |
| KuhnSearch.SolveDecides | container_matchers.go:601-628 | after Solve, every matcher holds a value exactly when an injective assignment of matchers to accepting values exists |
| KuhnSearch.SolveCounts | container_matchers.go:620-627 | matchersMatched equals the number of held values, is at most the number of matchers, and equals it exactly when an assignment exists |
| KuhnSearch.SolveAsWritten | container_matchers.go:601-628 | the search with visited sized by the matchers, as written, completes when there are at least as many matchers as values |
| KuhnSearch.AsWrittenPanics | container_matchers.go:617 | as written, Solve indexes visited out of range on an input that has a full assignment |
| KuhnSearch.TryPrefix | container_matchers.go:630-659 | a tryAssign that stays inside its visited slice gives the same outcome and pairing with any longer slice that starts the same way |
| KuhnSearch.SolveFromPrefix | container_matchers.go:612-618 | a Solve loop that does not panic computes the same with a longer visited slice |
| KuhnSearch.AsWrittenAgrees | container_matchers.go:601-628 | whatever the length of visited, a Solve that does not panic ends in the corrected pairing; so the panic is the only way the code as written differs |
| KuhnSearch.CorrectedPairsExample | container_matchers.go:601-659 | with visited sized by the values, the same input is fully assigned |
| FlowGraph.MatcherFlowGraph.constructor | container_matchers.go:585-599 | a new graph holds the matrix and has every matcher and every value free |
| FlowGraph.MatcherFlowGraph.TryAssign | container_matchers.go:630-659 | the in-place search leaves the slices and visited exactly as `KuhnSearch.Try` describes |
| FlowGraph.MatcherFlowGraph.FirstFreeValue | container_matchers.go:633-641 | the first loop of tryAssign finds the first value that the matcher accepts and no matcher holds, as `KuhnSearch.FirstFree` does |
| FlowGraph.MatcherFlowGraph.Reassign | container_matchers.go:643-657 | when every accepted value is held, the second loop gives the outcome, the slices and the visited marks that `KuhnSearch.Rest` describes |
| FlowGraph.MatcherFlowGraph.ReassignStep | container_matchers.go:644-655 | one value of the second loop: if it is rejected or visited, nothing changes; otherwise it is marked, and if its holder moves, the matcher takes it over |
| FlowGraph.MatcherFlowGraph.CountMatched | container_matchers.go:620-627 | the counting loop leaves the slices unchanged and sets matchersMatched to the number of matchers that hold a value |
| FlowGraph.MatcherFlowGraph.Solve | container_matchers.go:601-628 | the graph ends in the state `KuhnSearch.SolveFrom` computes, and matchersMatched counts the assigned matchers |
| FlowGraph.NewSolved | container_matchers.go:450-453 | building and solving the graph yields the corrected search's pairing, so `KuhnSearch.SolveDecides` applies to it |
| Ordered.Matches | container_matchers.go:665-681 | accepts exactly an iterable of the same length whose every element is accepted by the matcher at its position |
| Ordered.OrderedMatches | container_matchers.go:665-682 | orderedMatcher.Matches: a slice or array as long as the matchers whose every element the matcher at its index accepts; the loop Ordered.Matches is proved to decide it, and ElementsAreImpliesUnordered relates it to the unordered matchers |
| Ordered.ElementsAreImpliesUnordered | container_matchers.go:108-114 | whatever ElementsAre accepts, ElementsAreUnordered and Contains accept |
| Ordered.FailuresSound | container_matchers.go:691-704 | each reported failure is a position whose matcher rejects its element, in increasing order |
| Ordered.FailuresComplete | container_matchers.go:691-704 | every position whose matcher rejects its element is reported |
| Ordered.FailuresEmpty | container_matchers.go:691-711 | nothing is reported exactly when every position matches |
| Ordered.ListFailures | container_matchers.go:691-704 | the loop produces one part per failing position, in order |
| Ordered.PartsAreFailures | container_matchers.go:691-704 | the parts appended over the first n positions are the failing positions among them, in order, each rendered once |
| Ordered.ExplainFailure | container_matchers.go:683-712 | it declines to explain exactly when the matcher accepts; otherwise it reports the type, the length mismatch or the failing elements |
| Ordered.OrderedExplanation | container_matchers.go:683-712 | orderedMatcher.ExplainFailure as a value: the type text, the count text, or one "element %d: …" part per failing position; Ordered.ExplainFailure is proved to return it and to decline exactly when the matcher accepts |
| Ordered.OrderedString | container_matchers.go:714-720 | the description starts with "has elements matching [" and ends with "]"; with no matchers it is "has elements matching []", and with one it holds that matcher's description |
| Ordered.OrderedStringAppend | container_matchers.go:714-720 | one more matcher replaces the closing "]" with "; ", its description and "]", so the descriptions appear in order, separated by "; " |
| Ordered.ElementsAre | container_matchers.go:108-114 | ElementsAre accepts only what the unordered matchers accept, and explains exactly when it rejects |
| Maps.KeySet | container_matchers.go:335-351 | the key set holds exactly the keys of the entries |
| Maps.Lookup | container_matchers.go:341-345 | MapIndex finds a value exactly when the key is present, and the value found belongs to that key |
| Maps.LookupEntry | container_matchers.go:341-345 | in a map with distinct keys, looking up an entry's key finds that entry's value |
| Maps.KeySetSize | container_matchers.go:337-339 | a map with distinct keys has as many keys as entries, so the length test compares key counts |
| Maps.Matches | container_matchers.go:335-351 | the loop accepts exactly a map that has every expected key with a matching value and, for MapIs, the same size; an accepted map has every expected key |
| Maps.MapMatches | container_matchers.go:335-351 | mapMatcher.Matches: a map in which every expected key is present with an accepted value, and in MapIs mode with as many entries as keys; the loop Maps.Matches is proved to decide it, and MapIsExactKeys states the MapIs case as equal key sets |
| Maps.MapIsExactKeys | container_matchers.go:337-339 | for maps with distinct keys, MapIs accepts exactly what MapContains accepts when the key sets are equal |
| Maps.MapString | container_matchers.go:353-369 | the description starts with the mode's word and " map entries [" and ends with "]"; with no entries it is "<word> map entries []", and with one it holds that entry's part |
| Maps.MapStringAppend | container_matchers.go:353-369 | one more expected entry replaces the closing "]" with "; ", its "key -> matcher" part and "]" |
| Maps.MapIs | container_matchers.go:173-179 | MapIs accepts only what MapContains accepts, and accepts exactly the maps with the expected key set whose values match |
| Maps.MapContains | container_matchers.go:193-199 | MapContains accepts exactly a map in which every expected key is present with a matching value |
| Maps.ListEntries | container_matchers.go:301-306 | the loop flattens each map entry into a two-element pair, in entry order |
| Maps.MatchesKvs | container_matchers.go:295-312 | accepts exactly a map whose flattened pairs admit the matching the unordered matcher asks for |
| Maps.KvPairingIff | container_matchers.go:219-233 | the key/value matchers accept a map exactly when there is a matching in which each pair matcher accepts the key and value of its own entry |
| Maps.KvMatrixOfPairs | container_matchers.go:219-233 | the match matrix of the pair matchers over the entries holds, at (i, j), whether pair i accepts both the key and the value of entry j |
| Maps.KeyValMatches | container_matchers.go:219-233 | keyValMatcher.Matches: a two-element slice or array whose first element the key matcher and whose second the value matcher accepts; on a flattened map entry this is the key and value matchers on the entry, as KeyValOnEntry states |
| Maps.KeyValOnEntry | container_matchers.go:219-233 | a keyValMatcher accepts the [2]any pair of an entry exactly when its key matcher accepts the key and its value matcher the value |
| Maps.KeyValString | container_matchers.go:215-217 | keyValMatcher.String, "key (<key matcher>) -> <value matcher>", as KvStringOne shows inside the map description |
| Maps.KeyVal | container_matchers.go:252-258 | the keyValMatcher the KVs constructors build for each pair, without an ExplainFailure; KvMatrixOfPairs and KeyValOnEntry state what it accepts |
| Maps.MapKvMatches | container_matchers.go:295-312 | mapKvMatcher.Matches: a non-map is rejected, and a map goes to the unordered matcher over its list of entry pairs; KvPairingIff states this as a matching of pairs to entries |
| Maps.KvsGeneraliseKeys | container_matchers.go:251-288 | with key matchers that accept exactly the expected keys, MapContainsKVs and MapIsKVs accept exactly what MapContains and MapIs accept |
| Maps.KvStringOne | container_matchers.go:314-328 | a single pair is described as "key (k) -> v" inside the map brackets |
| Maps.KvString | container_matchers.go:314-328 | the description starts with the mode's word and " map entries [" and ends with "]"; with no pairs it is "<word> map entries []", and with one it holds that pair's description |
| Maps.KvStringAppend | container_matchers.go:314-328 | one more pair replaces the closing "]" with "; ", its description and "]" |
| Maps.MapContainsKvs | container_matchers.go:251-260 | accepts exactly a map with an injective matching of the pairs into its entries |
| Maps.MapIsKvs | container_matchers.go:279-288 | accepts exactly a map with a perfect matching of pairs and entries, and only maps that MapContainsKVs accepts and that have as many entries as pairs |
| Length.GetLength | container_matchers.go:391-402 | a length exists for strings, byte slices, slices, maps and values that report one, is the element count of an iterable, and is absent for integers |
| Length.LengthExplanation | container_matchers.go:404-410 | the explanation is the length, or that the type has no length |
| Length.Len | container_matchers.go:25-27 | Len accepts exactly a value whose length the inner matcher accepts as an int, and always explains |
| Length.LenMatches | container_matchers.go:379-385 | lenMatcher.Matches: the value has a length and the inner matcher accepts it as an int; Len states it as its acceptance set |
| Length.Empty | container_matchers.go:37-59 | Empty accepts exactly a value of length zero |
| Length.EmptyMatches | container_matchers.go:43-48 | emptyMatcher.Matches: the value has a length and it is zero; EmptyIsLenZero states that it agrees with Len of a matcher for 0 |
| Length.EmptyIsLenZero | container_matchers.go:37-59 | Empty agrees with Len of a matcher for the int 0, both in what it accepts and in what it explains |
| Length.UnorderedLength | container_matchers.go:441-456 | an accepted value has at least as many elements as there are matchers, and exactly as many in full mode |
| Strings.GetString | string_matchers.go:123-132 | a string and a []byte have a text, byte for byte; nothing else does |
| Strings.Index | string_matchers.go:50-56 | the search finds the first occurrence, and finds one exactly when the substring occurs |
| Strings.StringExplanation | string_matchers.go:134-141 | it declines to explain exactly when the value is a string or []byte, and otherwise names the type |
| Strings.StartsWith | string_matchers.go:15-33 | accepts exactly a string or []byte that begins with the prefix; described "starts with '…'" |
| Strings.PrefixMatches | string_matchers.go:24-30 | prefixMatcher.Matches: a string or []byte whose text begins with the prefix; StartsWith and PrefixIsSubstring state its meaning |
| Strings.HasSubstr | string_matchers.go:41-60 | accepts exactly a string or []byte in which the substring occurs; described "has substring '…'" |
| Strings.SubstrMatches | string_matchers.go:50-56 | substrMatcher.Matches, through strings.Contains: a string or []byte in which Index finds the substring; HasSubstr states it as an occurrence, and EmptyNeedle gives the empty substring |
| Strings.PrefixIsSubstring | string_matchers.go:15-60 | whatever StartsWith accepts, HasSubstr with the same text accepts |
| Strings.EmptyNeedle | string_matchers.go:24-56 | the empty prefix and the empty substring accept every string and []byte and nothing else |
| Strings.SubstrExamples | string_matchers_test.go:10-18 | "o, w" occurs in "hello, world" at 4 and "o,w" does not occur |
| Strings.Anchor | string_matchers.go:73-80 | the result is the pattern with a ^ in front exactly when it does not start with ^, and a $ at the end exactly when it does not end with $; so it is anchored at both ends and an anchored pattern is unchanged |
| Strings.AnchorIdempotent | string_matchers.go:73-80 | anchoring twice is anchoring once |
| Strings.AnchorExamples | string_matchers_test.go:75-88 | "hello$", "\\d+", "" and "^\\w+, \\w+$" anchor as the tests expect, "^hello$" among them |
| Strings.RegexMatcher | string_matchers.go:105-116 | accepts exactly a string or []byte in which the engine finds the pattern |
| Strings.Regex | string_matchers.go:73-80 | Regex runs the anchored pattern and shows it in its description |
| Strings.ContainsRegex | string_matchers.go:96-98 | ContainsRegex runs the pattern as given |
| Strings.AnchoredRegexIsContainsRegex | string_matchers.go:73-98 | on a pattern anchored at both ends, Regex and ContainsRegex are the same matcher |
| Comparison.Classify | comparison_matchers.go:343-363 | non-integers are non-numeric; an integer's class depends on its sign and on whether it exceeds the int64 range |
| Comparison.ToUint64 | comparison_matchers.go:366-375 | a non-negative integer converts unchanged, a negative one wraps to 2^64 plus its value |
| Comparison.StrCompare | comparison_matchers.go:154-157 | the comparison is -1, 0 or 1, and 0 exactly for equal strings |
| Comparison.StrCompareIsLexicographic | comparison_matchers.go:154-157 | the comparison is -1 exactly when the first string is lexicographically smaller |
| Comparison.LexLessTail | comparison_matchers.go:154-157 | when the first bytes are equal, one string is lexicographically smaller than the other exactly when its rest is smaller than the other rest |
| Comparison.StrCompareAntisymmetric | comparison_matchers.go:154-157 | swapping the strings negates the result |
| Comparison.TryCompareIntegers | comparison_matchers.go:167-312 | two integers of any kinds compare by their mathematical values |
| Comparison.TryCompareStrings | comparison_matchers.go:154-157 | two strings compare lexicographically |
| Comparison.TryCompare | comparison_matchers.go:150-341 | the string and integer branches of tryCompare, case for case; a comparison succeeds exactly for two strings or two integers, and a failed one gives 0; its values are stated by TryCompareIntegers and TryCompareStrings |
| Comparison.TryCompareSwap | comparison_matchers.go:150-341 | swapping actual and threshold negates the result |
| Comparison.OrderMeaning | comparison_matchers.go:73-131 | Gt, Lt, Ge and Le follow the integer order and the lexicographic string order, and reject anything else |
| Comparison.OrderRelations | comparison_matchers.go:73-131 | Ge is Gt or equal, Le is Lt or equal, on comparable values Le is not Gt and Ge is not Lt, and Lt and Le are Gt and Ge with the values swapped |
| Comparison.Gt | comparison_matchers.go:22 | described "is greater than …" and accepts what the comparison says is greater |
| Comparison.Lt | comparison_matchers.go:37 | described "is less than …" and accepts what the comparison says is smaller |
| Comparison.Ge | comparison_matchers.go:51 | described "is greater than or equal to …" |
| Comparison.Le | comparison_matchers.go:65 | described "is less than or equal to …" |
| Comparison.MixedKindExamples | comparison_matchers.go:167-196 | mixed signed and unsigned integers compare by value, and a string never compares with an int |
| PackageName.PackageName | eq.go:144-171 | the result is empty without a function; otherwise it is a prefix of the name that is followed by a dot and has no slash after it |
| PackageName.PackageOfQualifiedName | eq.go:150-170 | a name made of a package path, a dot and a symbol without slashes yields exactly that path |
| PackageName.NoDotNoPackage | eq.go:163-166 | without a dot after the last slash the result is empty |
| PackageName.MainPackageExample | eq.go:150-170 | "main.main" belongs to package "main" |
| PackageName.MethodPackageExample | eq.go:150-170 | a method name with a pointer receiver yields the path before the receiver |
| PackageName.EscapedDotExample | eq.go:150-170 | a path whose last element has an escaped dot is kept whole |

## Left out

- Floating-point values: the float classes and branches of `classify` and `tryCompare`, and `toFloat64`, are not modelled.
- Comparison of integers with floats is left out for the same reason.
- Reflection: dynamic Go values are a tagged datatype.
  - Named string and byte types are not distinguished from `string` and `[]byte`.
  - Arrays are slices.
  - Channels and types with a `Len()` method are opaque values that carry their length.
  - A named slice or string type that has its own `Len()` method is not covered. `getLength` takes the `Len()` result (container_matchers.go:392-394), while `unorderedMatcher` still iterates the value as a slice (container_matchers.go:422-423). A `Value` is either a slice or an opaque value with a length, never both.
- `AsMatcher`, `Eq`, `Not` and the other matchers outside this core are not part of this model. The inner matchers are given as values.
- `Regex` adds ^ and $ textually (string_matchers.go:74-79), so it does not always force a whole-text match. With an unparenthesised alternation, "a|b" becomes "^a|b$", and it accepts "axx". A pattern that ends in an escaped \$ gets no end anchor. The model keeps this textual anchoring. It makes no claim about whole-text matching, since the engine is a parameter.
- The regular-expression engine is a parameter of the regex matchers. `regexp.MustCompile` panics on a bad pattern; that panic is not modelled.
- `runtime.FuncForPC` and `Name` are replaced by the optional function name they give.
- `mapMatcher` in Go panics when `MapIndex` receives a key of the wrong type. The model treats that key as absent.
- Go maps iterate in random order. The model fixes the entry order, so descriptions that list map entries come out in one order.
- Maps.MapIs: the model requires distinct expected keys, which a Go map always has.
- Maps.MapIsExactKeys: the model takes distinct keys of the actual map as a hypothesis, which a Go map always has.
- KuhnSearch.SolveCounts: it does not prove that `matchersMatched` is the largest matching size. It proves only that the count equals the number of matchers exactly when a full assignment exists.
- The ExplainFailure of `keyValMatcher`, `mapMatcher`, `mapKvMatcher` and the comparison matchers is absent. Those types have none in the source, so their explanation is `None`.
- The doc comment of `ContainsRegex` (string_matchers.go:86-88) says ContainsRegex implies Regex. That is the wrong way round. The model states the relation the code has (Strings.AnchoredRegexIsContainsRegex).
- comparison_matchers_test.go calls `Gte` and `Lte`, but the code defines `Ge` and `Le`. The model follows the code.
- The comparison tests expect `5` not to be greater than `3.0`. That goes through the float path, which is left out.
- The "Wanted:" lines at container_matchers_test.go:23, 107 and 130 do not agree with the descriptions the String methods build. The model follows the String methods.

## Findings

| source | as written | input that shows it | evidently intended | confidence | as-written member | corrected member |
|---|---|---|---|---|---|---|
| container_matchers.go:617 | `visited` has one entry per matcher, but `tryAssign` indexes it by value (container_matchers.go:648) | 4 matchers and 5 values: matcher 0 accepts value 4; matcher 1 accepts values 0 and 4; matcher 2 accepts 0, 1 and 2; matcher 3 accepts 0 and 1. In Contains mode, the search for matcher 3 reads `visited[4]` and panics, although 0→4, 1→0, 2→2, 3→1 exists | `visited` has one entry per value | not executed | KuhnSearch.AsWrittenPanics | FlowGraph.MatcherFlowGraph.Solve |
