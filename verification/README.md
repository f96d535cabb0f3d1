# CloudArq's engine: what its sets, walks, readers and rings promise

This project models the engine of CloudArq, which reads trust policies and says who they let in, and proves what
the engine's comments promise. It is one stack, each part resting on the ones before it:

- **Sorting, Strings, Quoting**: canonical lists, byte order, and the quoting of strings with a reader for it.
- **Globs, Walks**: one declarative meaning of `*` and `?` patterns; the greedy segment matcher; the bounded
  breadth-first search for the shortest string several patterns share.
- **StringSets, Lattice, Renderings, Folding**: the canonical sets of claim values, their meet and join, their
  rendering and its reader, and the balanced fold.
- **Terms, AdmittedSets, Grants**: conjunctions of claims, their capped unions with caveats, and the projections of
  a grant's set.
- **Witnesses, Links, Refusals, Conditions, Remarks**: example tokens, the established link, the Deny that refuses a
  way in, the projection of conditions for Allow and Deny, and the grant rebuilt from rendered text.
- **Entries, Encoding, FindingIds, People, Collectors, Layouts, Edits**: the entries of a condition, the JSON encoder
  behind finding ids, the strip of people's names and of the caller's own out of messages, and the byte-exact removal of
  a principal from a policy.
- **Owners, Starts, Subjects, Confinements, AwsTenants, Rings, Placements, Moves, Forgetting, Renamings,
  Unverifications**: the ring classifier, from the owner a subject form reads to the place a grant lands in, what
  declaring an owner moves, and what forgetting a census fact does.

A string is a sequence of Unicode scalar values in lexicographic order, which is the order of its UTF-8 bytes. Go's
nil slices are empty sequences, an error is a constructor of a result type. Where the source loops over updated
variables, fields, maps or arrays there is a method with that loop, proved equal to a function; what the source
promises is proved of the function.

Three promises do not hold of the code as they are made. Each has an input here, and the exact condition under which it
holds.

- Terms are told apart by their renderings, and two terms can render alike: a claim name that holds an equals sign and a
  quote can stand for two claims (`Terms.EqualsInNameCollides`), and one of the two is then dropped
  (`AdmittedSets.EqualsInNameDropsATerm`). Nothing but repeats is dropped exactly when different terms of the list
  render differently (`AdmittedSets.NothingDroppedExactlyWhen`), and the order of the terms shows in the normal form
  exactly when something else is dropped (`AdmittedSets.OrderMattersExactlyWhen`). That a set admits enough, and that
  alone, is proved under this condition; names that hold at most one of the two characters always meet it
  (`Terms.TermRenderingIsInjective`, `AdmittedSets.PlainLosesNothing`).
- Placed again with one census fact forgotten, a grant is promised to land no nearer, to stay on the rings or beside
  them, and to be no surer at an unchanged place. Of the eleven facts the owner characters break the first
  (`Unverifications.CharactersMoveInwardExactlyWhen`), and they, the namespace and the case rule break the last
  (`Unverifications.CharactersMakeCertainExactlyWhen`, `Unverifications.NamespaceMakesCertainExactlyWhen`,
  `Unverifications.CaseMakesCertainExactlyWhen`).
- The caller's principal is to go wherever it starts outside an ARN. Each such place is taken out whole exactly when no
  two of them share bytes (`Collectors.EveryNameGoes`, `Collectors.OneNameStays`).

## Model

| member | source | states |
|---|---|---|
| Globs.ContainsGlob | internal/eval/glob.go:30-50 | a glob contains a value exactly when the pattern, read unit by unit with * as any run and ? as any one character, matches it |
| Globs.MatchSegments | internal/eval/glob.go:72-95 | the greedy leftmost scan accepts exactly when the first segment stands at the start, the last at the end and the others somewhere in order between |
| Globs.MatchAt | internal/eval/glob.go:98-108 | a segment fits at an index exactly when it lies inside the value and each unit admits its character |
| Globs.SplitMatches | internal/eval/glob.go:30-43 | cutting a pattern at its stars keeps its language: the pattern matches exactly where its segments can be placed |
| Globs.LeftmostIsSafe | internal/eval/glob.go:72-95 | taking the leftmost place for a middle segment never loses a placement of the rest, which is why the scan never backtracks |
| Globs.OnlyStarsAreEverything | internal/eval/glob.go:30-58 | a pattern matches every string exactly when it is stars alone, so a glob kept as a glob is never everything |
| Globs.SimplestMatches | internal/report/constraint.go:119-141 | the string a glob is witnessed by is matched by it, so a glob is never empty |
| Globs.SimplestShortest | internal/report/constraint.go:119-141 | no string the glob matches is shorter than its witness |
| Globs.ScanLiteralPrefix | internal/eval/shape.go:100-107 | the scan stops at the first *, ? or replacement character and returns what stands before it |
| Globs.MatchesBeginWithPrefix | internal/eval/shape.go:86-107 | every string a pattern matches begins with the pattern's literal prefix |
| Walks.ShortestShared | internal/join/witness.go:161-185 | the walk answers a shortest shared string, even when the bound is met in its last level; it answers none only where there is none, or once it has reached as many states as the bound, of which there are never more than the positions of the patterns multiplied |
| Walks.ReachedAreFew | internal/join/witness.go:147-185 | states each of which some text leads to are no more than the positions of the patterns multiplied, so a walk of few or short patterns never meets the bound |
| Walks.Walk.SkipStars | internal/join/witness.go:209-231 | one level is closed under stepping past a star, and lists each state it adds once, at the level that first reaches it |
| Walks.Walk.Consume | internal/join/witness.go:244-264 | the character chosen is one every pattern admits there, none is chosen only where no character is admitted, and x is chosen where nothing but stars and question marks stand |
| Walks.Progress | internal/join/witness.go:161-185 | from any position a completing string is either finished in the level or passes through a character the walk consumes |
| Walks.CoverNextLevel | internal/join/witness.go:161-185 | if the shortest shared strings still pass through level k they still pass through level k + 1 of the walk |
| Walks.LongerThanLevel | internal/join/witness.go:161-185 | a shared string no level up to k ends is longer than k |
| StringSets.ClaimsAreTrue | internal/eval/stringset.go:75-206 | IsEmpty and IsTop are claimed only of what is so; a value or a pattern holds a string, and no term holds every string |
| StringSets.GlobOf | internal/eval/glob.go:30-43 | a pattern without metacharacters becomes its value, one of stars alone everything, and in every case the set is canonical and holds what the pattern matches |
| Lattice.JoinIsExact | internal/eval/stringset.go:314-356 | the join is canonical, holds exactly what either side holds, and is top, empty or Unknown exactly when the sides say so |
| Lattice.MeetIsExact | internal/eval/stringset.go:215-256 | the meet is canonical and holds exactly what both sides hold; it is top only of two tops, and Unknown only where an Unknown met a top |
| Lattice.NewUnionTerms | internal/eval/stringset.go:342-356 | the union built of any terms is canonical and its members are the terms no other term covers |
| Lattice.NewUnionContains | internal/eval/stringset.go:342-356 | dropping covered values and repeats loses no string |
| Lattice.BuildUnion | internal/eval/stringset.go:342-356 | the loop over the sorted members with the covered values dropped builds that union |
| Lattice.ContainedByOther | internal/eval/stringset.go:359-366 | found exactly when a member at another index holds the value |
| Lattice.ComputeMeet | internal/eval/stringset.go:215-245 | the double loop over the terms of both sides computes the meet |
| Lattice.MeetTermsIsExact | internal/eval/stringset.go:262-307 | the meet of two terms holds exactly what both hold and is one term or empty |
| Lattice.TermsDetermine | internal/eval/stringset.go:280-356 | two canonical sets with the same terms are the same set |
| Lattice.JoinCommutes | internal/eval/stringset.go:314-335 | join is commutative up to identity of the value |
| Lattice.JoinIdempotent | internal/eval/stringset.go:314-335 | join is idempotent up to identity of the value |
| Lattice.JoinAssociates | internal/eval/stringset.go:314-335 | join is associative up to identity of the value, Unknowns and their reasons included |
| Quoting.QuoteRoundTrip | internal/eval/stringset.go:95 | a quoted string is read back whole, whatever follows it |
| Renderings.RenderingReadsBack | internal/eval/stringset.go:95-206 | the parser reads the rendering of a canonical set as the tree of that set and leaves what follows untouched |
| Renderings.RenderingIsInjective | internal/eval/stringset.go:132-206 | two canonical sets render alike, followed by anything that cannot extend a rendering, only when they are one set |
| Renderings.ReadConstraint | internal/report/constraint.go:61-73 | the recursive reader is the grammar of renderings: a pattern, a value or a parenthesised list |
| Renderings.ReadMembers | internal/report/constraint.go:75-100 | the loop over members reads one list under one separator, at least two members, patterns alone under an ampersand |
| Folding.JoinAll | internal/parse/aws/condition.go:842-855 | the balanced pairwise fold of any non-empty list is the left fold, for every operation associative on the values met |
| Folding.LeftIsRight | internal/parse/aws/condition.go:836-855 | on values the operation is associative on, folding from either end is one value |
| Conditions.WithCaveats | internal/parse/aws/condition.go:861-870 | caveats carried in by a balanced tree of empty sets are the caveats added one by one |
| Conditions.Evaluate | internal/parse/aws/condition.go:297-427 | a condition becomes the union of its values' sets, or an Unknown of every fact that kept it from being read |
| Conditions.SetOfConditionIsExact | internal/parse/aws/condition.go:297-510 | a condition read holds exactly the values it lists, asks for the claim, and is Unknown exactly when a fact was recorded |
| Conditions.EvaluateBlock | internal/parse/aws/condition.go:152-170 | the block is met into one term condition by condition, with a caveat for each fact, whatever its keys are named |
| Conditions.BlockIsUpperBound | internal/parse/aws/condition.go:152-170 | the block's set holds every token that meets all its conditions under every meaning of those not read, and is exact when it carries no caveat |
| Conditions.GrantOfStatement | internal/parse/aws/grant.go:199-226 | the statement's set: widened where its action or principal is doubted, everything or nothing where the whole is, and nothing for a Deny not read exactly |
| Conditions.AllowIsUpperBound | internal/parse/aws/grant.go:171-226 | an Allow admits every token it may mean to under every meaning of what was not read, and exactly those when it is exact |
| Conditions.DenyIsLowerBound | internal/parse/aws/grant.go:171-226 | a token in a Deny's set meets that Deny under every meaning of what was not read |
| Conditions.JoinIsAssociative | internal/eval/stringset.go:314-335 | joining canonical sets is an operation the balanced fold may be used on |
| Terms.ConjoinIsExact | internal/eval/admitted.go:69-79 | a token satisfies the conjunction of two terms exactly when it satisfies both |
| Terms.MergeTerms | internal/eval/admitted.go:69-79 | the in-place merge of the second term's claims is that conjunction |
| Terms.Failures | internal/eval/admitted.go:209-220 | the claims a token fails, sorted, and none exactly when the token satisfies the term |
| Terms.TermRenderingIsInjective | internal/eval/admitted.go:256-263 | two terms render alike only when they are one term, where no claim name holds an equals sign, or none holds both that and a quote and no constraint is everything or nothing |
| Terms.EqualsInNameCollides | internal/eval/admitted.go:256-263 | with an equals sign and a quote in a claim name two different terms render alike, one of which admits a token the other does not |
| AdmittedSets.BuildNormal | internal/eval/admitted.go:95-126 | the loop over live terms with a map of renderings seen builds the normal form, capped at 256 terms |
| AdmittedSets.NormaliseIsExact | internal/eval/admitted.go:95-152 | the normal form is canonical and keeps every caveat; past the cap it admits everything and says so; below it admits nothing that no term admits, and everything some term admits where different terms render differently |
| AdmittedSets.NothingDroppedExactlyWhen | internal/eval/admitted.go:108-120 | every term is kept by the map of renderings seen exactly when different terms of the list render differently |
| AdmittedSets.OrderMattersExactlyWhen | internal/eval/admitted.go:95-126 | the normal form is the same for every order and repetition of the terms exactly when normalising drops none but repeats |
| AdmittedSets.PlainLosesNothing | internal/eval/admitted.go:95-126 | with claim names that hold at most one of an equals sign and a quote it never drops any but repeats |
| AdmittedSets.NormaliseIsOrderFree | internal/eval/admitted.go:95-126 | where it drops none but repeats the normal form does not depend on the order or the repeats of terms and caveats |
| AdmittedSets.NormaliseIsStable | internal/eval/admitted.go:95-126 | a canonical set, whatever its claims are named, is its own normal form |
| AdmittedSets.MeetSetsIsExact | internal/eval/admitted.go:57-65 | the meet is canonical, keeps both lists of caveats, and is the conjunction: everything and said so when the product overflows, otherwise never more than it, and never less where the product drops none but repeats |
| AdmittedSets.JoinSetsIsExact | internal/eval/admitted.go:82-84 | the join is canonical, keeps both lists of caveats, and is the disjunction: everything and said so when the terms together overflow, otherwise never more than it, and never less where they drop none but repeats |
| AdmittedSets.JoinSetsCommutes | internal/eval/admitted.go:82-84 | joining in either order gives one value where none but repeats is dropped |
| AdmittedSets.EqualsInNameDropsATerm | internal/eval/admitted.go:95-126 | with an equals sign in a claim name normalising drops a term that is not a repeat, and a token it admitted with it |
| AdmittedSets.BuildMeet | internal/eval/admitted.go:57-65 | the product of the two term lists, normalised under both caveat lists |
| AdmittedSets.Excludes | internal/eval/admitted.go:187-203 | a set excludes a token exactly when it does not admit it, and names the first failing claim of the term with the fewest failures |
| AdmittedSets.AddCaveatsIs | internal/eval/caveat.go:20-46 | caveats added one by one are the sorted union of the caveats |
| Remarks.SetOfRenderIsIdentity | internal/report/remark.go:370-456 | every canonical set but everything and nothing is rebuilt from its rendering, identically, through Join and Meet |
| Remarks.RenderingNests | internal/report/remark.go:384-412 | no canonical set's rendering nests lists more than two deep, so the bound on nesting refuses none |
| Remarks.ListsDeep | internal/report/remark.go:392-412 | the scan reports the deepest list outside quoted strings |
| Remarks.ReadUnknown | internal/report/remark.go:436-456 | the reasons of an Unknown are read one by one and joined |
| Remarks.ReadSet | internal/report/remark.go:370-432 | a rendering is read through the grammar and rebuilt, and refused where a list nests deeper than two or text is left |
| Remarks.GrantIsRebuilt | internal/report/remark.go:332-363 | a grant's admitted set is rebuilt, identically, from the rows, the caveats and the rendering an answer states of it |
| Remarks.RebuildGrant | internal/report/remark.go:332-363 | the loop that builds terms row by row and checks the whole against the stated rendering |
| Witnesses.TreeFulfils | internal/report/constraint.go:15-56 | the tree an answer states for a set is fulfilled by exactly the strings the set holds |
| Witnesses.ShapeWitness | internal/join/witness.go:110-133 | a witness fulfils its constraint, and the witness of an intersection is as short as any; where every list of patterns has fewer states than the bound none is answered only of a constraint nothing fulfils, and one pattern shorter than the bound always has one |
| Witnesses.ClaimWitness | internal/join/witness.go:91-125 | a witness read from a constraint's own rendering is in the set the constraint holds; a set of patterns short enough for the walk has none only when it is empty of strings |
| Witnesses.TermWitness | internal/join/witness.go:91-104 | a token composed claim by claim satisfies its term; with short constraints none is composed only where no token satisfies it |
| Witnesses.WitnessOf | internal/join/witness.go:82-89 | an example token is admitted by the overlap and by both sides; with short constraints and sides that admit what the overlap does, there is none only where the overlap admits nobody |
| Grants.ProjectIsExact | internal/trust/grant.go:115-143 | a projection is canonical, keeps every caveat and admits no token that meets the kept claims of no term; it admits each that does where the projected terms render apart |
| Grants.ProjectWidens | internal/trust/grant.go:115-143 | projecting only widens, where the projected terms render apart: a token that differs from an admitted one outside the kept claims is admitted |
| Grants.ProjectInPlace | internal/trust/grant.go:129-143 | deleting claims in place and adding the caveats back is that projection |
| Refusals.CheckWithin | internal/report/finding.go:419-427 | a term is within a Deny's when each claim the Deny asks is asked, wholly read, and met unchanged by the Deny's set |
| Refusals.WithinIsInclusion | internal/report/finding.go:419-427 | equal renderings give set inclusion: every token the term admits satisfies the Deny's term |
| Refusals.ValueWithinWhatHoldsIt | internal/report/finding.go:419-427 | for a term of exact values the test misses nothing: it holds exactly when the Deny's sets hold the values |
| Refusals.Refused | internal/report/finding.go:400-412 | a way in is refused exactly when some exact Deny of its issuer has a term it is within |
| Refusals.RefusedIsSound | internal/report/finding.go:400-427 | when a way in is refused, every token its term admits is admitted by an exact Deny of the same issuer |
| Refusals.FindDenies | internal/report/finding.go:385-393 | the Denies counted are those read exactly, in order |
| Links.NewLink | internal/join/link.go:117-173 | a pair not pairable is refused for that reason; a pairable one is linked exactly when its overlap is not provably empty; the link is established exactly when every proof obligation holds; its example is admitted by both |
| Links.EstablishedIsReal | internal/join/link.go:84-173 | an established link is real where nothing compared drops a term: the overlap is exactly the identities both admit with the audience set aside, and no statement that may deny takes a token of either side inside it |
| Links.PlainGrantsLoseNothing | internal/join/link.go:117-173 | grants whose claim names hold at most one of an equals sign and a quote drop no term when their identities are compared |
| Links.DisjointIsDisjoint | internal/join/link.go:117-173 | a pair refused as disjoint has no identity both sides admit, where the identities of each side render apart |
| Links.OverlapIs | internal/join/link.go:117-173 | the overlap holds no identity but those both admit unless it carries a caveat, and each of them where no term is dropped |
| Links.DenialsAgainst | internal/join/link.go:404-431 | no statement is counted exactly when each that may deny on the side's target, of an issuer that may be the pair's, is read exactly, on conclusive evidence and shares no token with the side inside the overlap |
| Links.ProvablyMissesIsSound | internal/join/link.go:404-417 | an empty meet of statement, side and overlap means no token of the side inside the overlap is the statement's |
| Links.DoubtsAbout | internal/join/link.go:318-380 | a side is undoubted exactly when it names its issuer, is an Allow, is exact, leaves no claim unknown without a caveat, and every record is conclusive |
| Links.CaveatsBeyond | internal/join/link.go:481-493 | nothing is added exactly when each caveat of the overlap is one of a side's |
| Encoding.JsonRoundTrip | internal/report/encode.go:89-144 | a reader of JSON strings (section 7 of RFC 8259) reads back every string the encoder quotes, and stops where it ends |
| Encoding.ValueReadsBack | internal/report/encode.go:17-75 | a reader of JSON (sections 3 to 5 of RFC 8259) reads back every value written, strings, flags, lists and objects within one another, and stops where it ends |
| Encoding.ValueClosesItsMember | internal/report/encode.go:23-48 | a value written behind a name, an object written whole among them, is one member of the object around it |
| Encoding.Encoder.Quote | internal/report/encode.go:89-144 | copying plain runs whole and escaping the rest appends exactly the quoted string |
| Encoding.Encoder.Begin | internal/report/encode.go:23-28 | an object opened holds no member yet |
| Encoding.Encoder.End | internal/report/encode.go:30-33 | the object closed is written whole behind what stood before it, and the object around it counts its members as it did |
| Encoding.Encoder.Str | internal/report/encode.go:35-48 | one member is added to the open object, with a comma exactly between members |
| Encoding.Encoder.StrOmit | internal/report/encode.go:50-54 | an empty value adds nothing, not even a comma |
| Encoding.Encoder.Suggested | internal/report/findings.go:590-603 | the list of owners asked about is one member of the object around it, each of its objects read back as its three members |
| FindingIds.KeysOf | internal/report/findingid.go:64-81 | the one buffer, written, cut back and overwritten, yields the bytes of the id and those of the pairing key |
| FindingIds.IdBytesAreInjective | internal/report/findingid.go:41-81 | the bytes hashed are equal only for one rule, role, issuer and condition list, the pairing bytes only for one rule, role and issuer, and neither is ever the other |
| FindingIds.WriteCondition | internal/report/findingid.go:90-96 | a term's condition list is each claim in order with its rendering |
| Entries.EntryIsInjective | internal/report/findingid.go:83-96 | an entry claim=rendering is of one claim and one set, whatever characters the claim is named with: its last equals sign outside quotes divides it |
| FindingIds.ConditionIsInjective | internal/report/findingid.go:83-96 | a condition list is the list of one term |
| FindingIds.IdIdentifiesTheTerm | internal/report/findingid.go:41-96 | so two findings read wholly share the bytes of an id only for one rule, role, issuer and term, whatever the claims are named |
| People.NextArns | internal/report/caller.go:62-81 | the next ARN is the first "arn:" at or after the index, and its run ends at the first byte no ARN may hold |
| People.FindPerson | internal/report/caller.go:109-146 | the byte scan finds where the name of a person starts, by the kinds of principal that name one |
| People.FindFirstName | internal/report/caller.go:96-104 | the least start of a name over every ARN in the run, overlapping ones too |
| People.Strip | internal/report/caller.go:37-54 | the loop that copies up to each name writes the message with each run cut at its first name |
| People.WithoutPeopleIsIdempotent | internal/report/caller.go:17-54 | stripping twice is stripping once |
| People.NobodyIsNamed | internal/report/caller.go:17-54 | in what is left no ARN names anything but the token |
| People.OnlyNamesAreCut | internal/report/caller.go:17-54 | a byte is cut exactly where someone is named; every other byte stays, in order |
| Collectors.TakeOutPrincipal | internal/collect/aws/collect.go:126-170 | one pass over the places the principal stands and the ARNs between them takes out what follows its colon wherever it starts outside an ARN |
| Collectors.EveryNameGoes | internal/collect/aws/collect.go:89-103 | each place the principal starts outside an ARN is taken out, whole, exactly when no two such places share bytes |
| Collectors.OneNameStays | internal/collect/aws/collect.go:89-103 | a session name that ends in the letter every such ID begins with can stand so that one of two names is not taken out |
| Collectors.NoOverlapNoneShare | internal/collect/aws/collect.go:89-103 | a principal that cannot overlap itself is taken out whole wherever it starts outside an ARN |
| Collectors.NoneStandsAlone | internal/collect/aws/collect.go:89-103 | in any case, wherever it starts outside an ARN it is taken out or starts in what is taken out with one before it |
| Collectors.CutWhereTaken | internal/collect/aws/collect.go:126-170 | a byte is cut exactly where it follows the colon of a principal taken out |
| Collectors.PartsAreTheMessage | internal/collect/aws/collect.go:126-170 | nothing but those parts is cut: with them the message is whole, byte for byte |
| Collectors.ArnsGoWhole | internal/collect/aws/collect.go:126-133 | no ARN is cut short: each is left whole or goes whole, so the grammar reads what is left as it read it before |
| Collectors.TakeOutTheCaller | internal/collect/aws/collect.go:117-124 | the passes in order: principal, grammar, home for a call never answered, grammar |
| Collectors.CollectedIsFixed | internal/collect/aws/collect.go:108-124 | whatever home is taken out, the collector's message is a fixed point of the engine's strip and names nobody |
| Edits.CutElement | internal/parse/aws/edit.go:158-170 | an element is cut with the separator beside it: up to the next element, or from the end of the one before, or all between the delimiters |
| Edits.Elements | internal/parse/aws/edit.go:234-242 | where each element starts and ends, in order |
| Edits.CutLays | internal/parse/aws/edit.go:153-170 | bytes laid out as a tree, cut at an element anywhere in it, are laid out as the tree without that element, whatever stands behind moved up and nothing else changed |
| Edits.ShrunkIsWithout | internal/parse/aws/edit.go:153-170 | the tree the cut bytes lay out is the same tree without that one element |
| Layouts.LaysWhereverItStands | internal/parse/aws/edit.go:153-170 | a value laid out in some bytes is laid out wherever the same bytes stand |
| Layouts.LayoutIsUnique | internal/parse/aws/json.go:60-287 | a stretch of bytes is one value: no two trees, and no two sets of places, are laid out by it |
| Layouts.DocumentIsUnique | internal/parse/aws/json.go:60-89 | a text is a document of one value in at most one way |
| Edits.Locate | internal/parse/aws/edit.go:90-117 | a principal string at the given place is found whenever a statement has one there |
| Edits.MayRemoveFrom | internal/parse/aws/edit.go:123-140 | counting members once decides whether the Effect is written once, as "Allow", with no NotPrincipal |
| Edits.OnePrincipal | internal/parse/aws/edit.go:24-76 | one place in the bytes holds one principal, of one statement |
| Edits.RemovePrincipal | internal/parse/aws/edit.go:24-151 | refused exactly unless the place is a principal of a statement one may be removed from; else the bytes are read in one way, as the same tree without the principal, its kind or its statement, whichever is the least that has company |
| Edits.CutIsReadAs | internal/parse/aws/edit.go:153-170 | cut at any element, the bytes of a document are a document again, of the tree without that element and of no other |
| Edits.Remove | internal/parse/aws/edit.go:119-151 | the least goes: the item of a longer list, else the kind beside other kinds, else the statement |
| Owners.SortOwners | internal/ring/classify.go:785-805 | the merge sort, in place with the left half copied out, sorts its range and leaves the rest of the array as it was |
| Owners.MergeSortSorts | internal/ring/classify.go:778-805 | the result is in order and has the same owners as often |
| Owners.OwnerOrder | internal/ring/classify.go:807-831 | the comparison is a strict order under which no two different owners are equal |
| Owners.DistinctInPlace | internal/ring/classify.go:773-776 | sorting and then closing up runs of equal owners in place leaves the distinct owners in front |
| Owners.DistinctIsCanonical | internal/ring/classify.go:771-776 | the same owners in any order, any number of times, give one strictly ascending list of exactly them |
| Subjects.ReadFormParts | internal/ring/classify.go:664-698 | the loop over a form's parts reads the owner of the deepest part closed, the name left open, or that the form cannot read the text |
| Subjects.OwnerIsDeepest | internal/ring/classify.go:654-698 | the owner a form reads is the last of those its parts close |
| Subjects.ReadFormExtends | internal/ring/classify.go:654-698 | reading is monotone: a form that reads a subject reads each of its beginnings, and closes there a beginning of what it closes in the whole |
| Subjects.FindSubjectOwners | internal/ring/classify.go:602-620 | no owner where a never-pin literal may lead the text or a form reads it without an owner, else those of every form that reads it |
| Subjects.SubjectOwnersAreSound | internal/ring/classify.go:597-620 | owners read from a text hold of every subject that begins with it: no never-pin literal leads it, and each form that reads it whole closes one of them |
| Subjects.FindWrittenStart | internal/ring/classify.go:577-595 | the start of a name every form that reads the text leaves open, the same for each, or none |
| Subjects.WrittenStartIsSound | internal/ring/classify.go:572-595 | every subject that begins with the text spells, in each form that reads it, an owner beginning with that start |
| Starts.LongerOfIsExact | internal/ring/classify.go:540-556 | a text begins with one of the result exactly when it begins with one of each list |
| Starts.BuildLongerOf | internal/ring/classify.go:543-556 | the double loop keeps the longer of each comparable pair |
| Starts.ShortestIs | internal/ring/classify.go:558-570 | the starts no other start begins, in byte order, each once, with the same extensions |
| Starts.KeptIs | internal/ring/classify.go:561-570 | comparing each sorted start with the last kept alone leaves an antichain every start begins with one of |
| Starts.BuildShortest | internal/ring/classify.go:561-570 | the loop over sorted starts computes it |
| Confinements.ReadShape | internal/ring/classify.go:351-396 | a union confines when every member does, is read as the first that does not, and as a bound last; an intersection confines when any pattern does |
| Confinements.ConfineShapeIsSound | internal/ring/classify.go:343-396 | whatever owners read of a value or a prefix say of each value, the owners of a whole shape say of every value it admits |
| Confinements.PinIsSound | internal/ring/classify.go:343-396 | pin soundness: no value admitted by a subject constraint that pins is led by a never-pin literal, and each form reading a value whole closes one of the pin's owners |
| Confinements.SubjectValuesAreSound | internal/ring/classify.go:452-484 | each way a subject value is read for owners, whole or as the bound of its literal prefix, holds of that value |
| Confinements.FindOwnerStarts | internal/ring/classify.go:500-538 | the starts of every open member of a union, and those the patterns of an intersection agree on |
| Confinements.OwnerStartsAreSound | internal/ring/classify.go:486-538 | every subject admitted other than through a pinned member continues, in each form that reads it, that form's lead with one of the starts |
| AwsTenants.PrefixSettlesTheTenant | internal/parse/aws/tenancy.go:83-99 | the account a prefix closes is the account of every ARN that begins with it |
| AwsTenants.TenantReadersAreSound | internal/parse/aws/tenancy.go:63-99 | the readings of the account, ARN and organisation claims hold of every value |
| Rings.Reader.Add | internal/ring/classify.go:227-237 | a pin is kept, a doubt kept with the census's first, and a bound remembered |
| Rings.Reader.AddAll | internal/ring/classify.go:163-191 | adding each constraint in turn leaves the reading of them all |
| Rings.AddedAllIs | internal/ring/classify.go:223-237 | the readings together hold every pin, are unread exactly where one that pins nothing is, and a census fact missing outranks a constraint unread in any order |
| Rings.ConfineIsSound | internal/ring/classify.go:332-341 | a constraint that pins is on a claim every admitted token carries, and its owners hold of that claim's value |
| Rings.SharedPinsHold | internal/ring/classify.go:163-177 | every pin of a shared issuer's alternative holds every token the alternative admits, by its subject or by a tenancy claim that is read |
| Rings.PrincipalPinsHold | internal/ring/classify.go:183-191 | every pin of an AWS principal's alternative names the tenant of every token it admits |
| Rings.FindOutermost | internal/ring/classify.go:740-769 | the loops name the outermost ring and the lines beside it, whether each is exact, and the owners there |
| Rings.OutermostRingIs | internal/ring/classify.go:736-769 | the ring named is reached by a population and none reaches farther out |
| Rings.NamedIs | internal/ring/classify.go:736-769 | the places named are the outermost ring and each line reached, and no other |
| Placements.SharedPlaceIsSound | internal/ring/classify.go:163-300 | a shared issuer's alternative placed with an outsider or with you: every token it admits belongs to owners the population names, all of them declared where the place is yours |
| Placements.PrincipalPlaceIsSound | internal/ring/classify.go:183-300 | the same of an AWS principal's alternative, by the account or organisation a claim of every token names |
| Placements.ExactMeansRead | internal/ring/classify.go:239-280 | a place is exact only where no constraint was a bound, and the platform only where none pinned, none went unread and no request key was left |
| Placements.NearerOnlyWhenShown | internal/ring/classify.go:53-158 | a ring nearer than anyone needs a modelled principal, a named issuer and tokens shown to need an account; your people need a provider declared; whatever is with anyone is never exact |
| Placements.UnreadEffectIsNeverExact | internal/ring/classify.go:18-44 | a grant whose effect was not read is placed as an Allow, and never exactly |
| Placements.UnreadNeverNarrows | internal/ring/classify.go:60-341 | reading any claims of an alternative as unknown, or not at all, and adding any caveats places it no nearer |
| Placements.UnreadNeverNarrowsTheGrant | internal/ring/classify.go:25-44 | and so never moves a grant's outermost ring nearer, even beside added alternatives |
| Forgetting.ForgettingCanMoveInward | internal/ring/property_test.go:158-210 | the promise that forgetting a census fact never moves a grant inward fails for the owner characters: an alternative with a name they exclude moves from the platform to an outsider |
| Forgetting.ForgettingMovesInwardExactlyWhen | internal/ring/classify.go:428-439 | forgetting the owner characters moves an alternative inward exactly where a claim spells by its values a name they exclude, and nothing pins it or only outsiders do and every such name is declared |
| Forgetting.ClaimStartsToPin | internal/ring/classify.go:428-439 | a claim that pinned nothing pins without the characters exactly where it names nobody, and one that pinned pins the same owners |
| Forgetting.ForgottenPlace | internal/ring/classify.go:163-177 | with the characters forgotten an alternative lands where its tenancy claims alone put it, every listed value taken for a name |
| Forgetting.ForgettingMakesCertainExactlyWhen | internal/ring/classify.go:239-280 | forgetting the owner characters leaves an alternative in place and makes it exact exactly where its subject is read as a bound and the tenancy claims alone pin it where it was |
| Unverifications.ForgettingNeverMovesInward | internal/ring/property_test.go:131-210 | forgetting any of the ten other facts never moves a grant inward, nor out of the rings or into them but to anyone |
| Unverifications.ForgettingNeverMakesCertain | internal/ring/property_test.go:131-210 | forgetting any of the eight facts not about names never makes a grant that stays in place exact |
| Unverifications.CharactersMoveInwardExactlyWhen | internal/ring/property_test.go:158-210 | forgetting the owner characters moves a grant inward exactly where the tenancy claims alone, any name taken for one, put each alternative nearer than the outermost of them landed |
| Unverifications.CharactersMakeCertainExactlyWhen | internal/ring/property_test.go:158-210 | and makes a grant that stays in place exact exactly where its outermost alternatives are pinned, each by a bound of its subject, and the tenancy claims alone reach that ring and nothing farther out |
| Unverifications.NamespaceMakesCertainExactlyWhen | internal/ring/property_test.go:158-210 | forgetting the namespace does so exactly where alternatives that are exactly yours stand behind outsiders none of which is exact |
| Unverifications.CaseMakesCertainExactlyWhen | internal/ring/property_test.go:158-210 | forgetting the case rule does so exactly where such alternatives are yours by that rule alone |
| Unverifications.CharactersCanMoveInward | internal/ring/property_test.go:158-210 | one grant that moves inward |
| Unverifications.CharactersCanMakeCertain | internal/ring/property_test.go:158-210 | one grant, with a starred subject, that becomes exact where it was |
| Unverifications.NamespaceCanMakeCertain | internal/ring/property_test.go:158-210 | one grant of two alternatives that becomes exact where it was when the namespace is forgotten |
| Unverifications.CaseCanMakeCertain | internal/ring/property_test.go:158-210 | and one when the case rule is |
| Renamings.SharedRenamed | internal/ring/classify.go:163-177 | what is read of an alternative rests on neither the namespace nor the case rule: as many pins, of the same owners but for the namespace, and as certain |
| Moves.DeclaringOnlyMovesInward | internal/ring/classify.go:282-300 | declaring more owners changes no population's basis, state or starts, and moves it only from an outsider to yours or from a SAML provider to your people |
| Moves.TermStays | internal/ring/classify.go:732-734 | an owner declared already, or naming no owner a population is pinned to, changes no population of an alternative |
| Moves.SkippedMovesNothing | internal/report/findings.go:521-562 | the fast path is safe: what it skips would move no population of any grant |
| Moves.FindMoves | internal/report/findings.go:542-562 | the owners returned are those for which placing every grant again would land a population elsewhere |
| Moves.FindPinnedTo | internal/report/findings.go:566-575 | found exactly when the owner names one a population of some grant is pinned to |
| Moves.FindElsewhere | internal/report/findings.go:579-588 | found exactly when a population of the two placings lands in two places |

## Left out

- Conditions.Evaluate: which operator, key or value records a fact is not modelled; a condition carries the facts met, because every promise about the projection rests on whether one was recorded.
- Conditions.GrantOfStatement: the actions and principals that widen a statement are two flags, and a principal's identity is any starting term; principal parsing is not part of this model.
- Walks.ShortestShared: a state's key string is the vector of positions itself, which the key spells without loss; past the bound the walk may still find a string or none.
- FindingIds.KeysOf: the bytes are modelled and not their SHA-256.
- Encoding.JsonRoundTrip: strings are well-formed Unicode, so the replacement of invalid UTF-8 is not modelled.
- Quoting.QuoteRoundTrip: the reader knows the escapes the writer uses; octal and other escapes Go's unquoting accepts are never written.
- Renderings.ReadConstraint: the join reads renderings with a copy of this grammar (internal/join/witness.go:290-331), branch for branch the same, and is modelled once.
- Terms.TermRenderingIsInjective: of names that hold both an equals sign and a quote it says nothing; whether terms so named render apart is asked of the terms, by AdmittedSets.NothingDroppedExactlyWhen.
- Collectors.CollectedIsFixed: the pass that writes the home directory as ~ is any function on strings, since it rests on the platform's path cleaning.
- Edits.RemovePrincipal: the parsed tree and where each value is written are given, with the layout they have in the bytes, which fixes them; the token stream that finds them, the bound on nesting and the sentences of the refusals are not modelled.
- Links.NewLink: the sentences of a link, the swap of its sides into one order, and the sorting of evidence are not modelled; a doubt is one of the kinds of doubt.
- Remarks.GrantIsRebuilt: the admitted set and its terms are rebuilt; the facts, keys and ways around it that a remark compares are not modelled.
- Rings.FindOutermost: the parser's tables the classifier asks (which caveat may be on a claim, which external-id condition asks for no value, which services are intermediaries, how an issuer URL is normalised) are parameters.
- Placements.UnreadNeverNarrowsTheGrant: the alternatives of the grant are compared as lists, before any that became alike are dropped.
- Moves.FindMoves: a move is the owner asked about; the headline the answer would then open on is not modelled.
- Reading declarations from text, and LetNoOneIn: easy members whose guarantees are their own bodies.
- Sentences, HTML and terminal text, the findings' rules over ways in beyond the refusal, and the census and registry data.
- The AWS SDK calls, clocks, evidence bodies, the WebAssembly exports and the TypeScript loader.
- Bounds on bytes and nesting of input documents, case folding beyond ASCII, and the Unicode tables.
