# Synapse gates and readers, in Dafny

A model of the parts of the Synapse repository that read hostile or changing input and decide something
from it, and proofs of what they promise. Each file models one component:

- `StompFrames`, `StompWire`, `StompClient`: the STOMP 1.2 frame reader of the C2SIM exercise client and its
  subscription. However the stream is cut into chunks, the frames and the collected messages are the same;
  what is written is read back.
- `JsonDepth`, `RepeatedKeys`, `RepeatedPaths`: the one-pass depth scan of JSON text against the depth of the tree, and
  the two-stage search for a repeated key against the raw tree of pairs.
- `ProtocTokens`, `ProtocLexemes`, `ProtocStrings`, `ProtocEscapes`, `ProtocText`, `ProtocGrammar`: the reader of
  protoc's text format, with the round trip from every printed form of a message.
- `ContractSplit`, `ContractLiterals`, `ContractMeaning`: the comment lexer and the fingerprints of literals that occur in
  comments only.
- `AixmSequences`, `AixmResolve`, `AixmMeaning`, `AixmFindings`: the AIXM temporality rules, from the valid slice of a
  sequence to the operative status of a feature at an instant.
- `PdfText`, `PdfMeaning`: the page index over normalised text.
- `ParksTable`, `ParksMeaning`: claims over the parks table and the reversal of closures.
- `OnBlock`, `Rulesets`, `RulesetApply`, `RulesetMeaning`, `RulesetServer`, `RulesetReadings`: the walker for a
  workflow's trigger block, and the write-and-read-back protocol on a ruleset, against any server, against a faithful one and
  against one that refuses readings.
- `FieldClosure`, `AdapterClasses`: two reachability fixed points.
- `BumpFindings`, `BumpModules`, `BumpDerive`, `BumpGate`, `BumpMeaning`: the release gate, from the units of two snapshots
  to the version number that is let through.
- `Wrappers`, `Lists`, `Sorting`, `Decimals`: shared helpers.

Loops and updated objects of the source are methods and classes here, each proved against a recursive
function or a property; the laws are lemmas about those functions. What such a function computes is said a second
time, without it, in the modules that end in `Meaning` and in `StompWire`, `RepeatedPaths`, `ProtocLexemes`,
`ProtocEscapes` and `ProtocGrammar`. A server, an `ast` parse, the metadata
reader and a digest are parameters: the results hold for every one of them, digests being injective where
it says so.

`dafny verify dfyconfig.toml` checks the whole project.

## Findings

Where the code does not do what it or its documentation says. Each has an input that shows it, and a theorem
that says exactly when the code does what is said.

| what is said | source | input | exactly when |
|---|---|---|---|
| a reading that is refused is not "there are none"; `plan` takes it so, and `apply` creates a second ruleset | gates/governance_audit.py:429-505 | `RulesetReadings.HiddenListingCreates`, `RulesetReadings.HiddenDetailCreates` | `RulesetReadings.PlanRightIff` |
| document and arrival order play no part; the view does not depend on them (`AixmResolve.OrderPlaysNoPart`), the TS_017 finding does | packages/cdm/synapse_cdm/aixm_resolve.py:26, packages/cdm/synapse_cdm/aixm_resolve.py:372-376 | `AixmFindings.FindingDependsOnOrder` | `AixmFindings.FeatureStableIff` |
| without a baseline the feature's state is unknown, and `unknown` is a state of the result; it is never reported (`AixmResolve.NeverUnknown`), the state is "not stated" | packages/cdm/synapse_cdm/aixm_resolve.py:115, packages/cdm/synapse_cdm/aixm_resolve.py:445-450 | `AixmResolve.UnresolvedIsNotStated` | `AixmResolve.NotStatedIff` |
| `SCHEMA_VERSION`'s own assignment is evidence and not excluded; it is judged only where a plain assignment of a constant can be read at both ends | gates/bump_derivation.py:98-99, gates/bump_derivation.py:1014-1015 | `BumpDerive.SchemaMoveUnseen` | `BumpDerive.SchemaJudgedIff` |
| a reversal that fails says that the shape still does not hold | gates/parks_table.py:425-430 | `ParksTable.NothingClosedMisleads`, `ParksTable.PhantomMisleads` | `ParksTable.FailureSentenceIff` |

## Model

| member | source | states |
|---|---|---|
| `StompFrames.ParseFrames` | examples/c2sim/exercise_client.py:195-226 | the loop that re-slices its buffer returns the frames and the remainder of the recursive reading, for every buffer |
| `StompFrames.CutFrame` | examples/c2sim/exercise_client.py:203-225 | one frame is cut off the front of a buffer, or it is incomplete or its length cannot be read |
| `StompFrames.ParseOfConcat` | examples/c2sim/exercise_client.py:195-226 | reading `a`, and then what it left followed by `b`, gives what reading `a + b` at once gives, for every stream and every cut |
| `StompFrames.ChunkingIsInvisible` | examples/c2sim/exercise_client.py:195-226 | two ways of cutting one stream into chunks give the same frames and the same remainder |
| `StompFrames.FeedIsParse` | examples/c2sim/exercise_client.py:242-253 | feeding chunk after chunk is one reading of everything received |
| `StompFrames.WrittenFrame` | examples/c2sim/exercise_client.py:190-226 | a written frame is read back, and the reader stops exactly at its end, whatever follows |
| `StompFrames.RoundTrip` | examples/c2sim/exercise_client.py:190-226 | any list of written frames with any heart-beats between them reads back as exactly that list with nothing left unread; a body is free of NUL or carries its content-length |
| `StompFrames.HeadersReadBack` | examples/c2sim/exercise_client.py:208-211 | of repeated headers the first one written wins (STOMP 1.2, 'Repeated Header Entries') |
| `StompFrames.DistinctHeadersKept` | examples/c2sim/exercise_client.py:190-192 | with no key repeated, every header is reported with its value |
| `StompWire.WriteMeans` | examples/c2sim/exercise_client.py:190-192 | the octets of a frame: command, a line for each header with a colon behind its key, an empty line, the body and a null octet |
| `StompWire.IntMeans` | examples/c2sim/exercise_client.py:214 | which octets are a number and which: blanks at both ends, a sign or none, digits with single underscores |
| `StompWire.FrameMeans` | examples/c2sim/exercise_client.py:203-225 | a pass takes off the head up to the first empty line, read without carriage returns, line by line and colon by colon, and a body as long as content-length says or up to the first null octet; otherwise which of these is wanting, or that the length is no number |
| `StompWire.ParseMeans` | examples/c2sim/exercise_client.py:199-226 | reading passes over line ends, takes one frame off what follows, and goes on with the rest |
| `StompClient.BatchJoins` | examples/c2sim/exercise_client.py:242-262 | what is collected of two batches is what was collected of the first and what the second holds before its first ERROR frame |
| `StompClient.CollectedIs` | examples/c2sim/exercise_client.py:254-258 | what is collected, by positions in the frames: the headers and bodies of exactly those whose command is MESSAGE in front of the first ERROR frame |
| `StompClient.GoalMeans` | examples/c2sim/exercise_client.py:237-238 | the first wait ends with a CONNECTED frame among those just read, a collecting one with enough MESSAGE frames of the selector |
| `StompClient.Stomp.Take` | examples/c2sim/exercise_client.py:254-258 | one batch appends its MESSAGE frames up to the first ERROR frame, and reports the ERROR |
| `StompClient.Stomp.Wait` | examples/c2sim/exercise_client.py:242-262 | whatever the chunks, the messages collected are the MESSAGE frames of the whole stream received, in order (`Valid`); after an ERROR frame, those before it; the wait ends with the first pass after which the goal is met, and times out when it was met after none |
| `StompClient.Stomp.Collect` | examples/c2sim/exercise_client.py:264-270 | the next bodies for a selector among the messages that arrived during the call: none from before it and none skipped; fewer than asked only when the chunks ran out |
| `JsonDepth.JsonNestingDepth` | packages/cdm/synapse_cdm/adapter.py:435-471 | the scan over significant characters with its hidden position computes the character-by-character run |
| `JsonDepth.ScanIsDepth` | packages/cdm/synapse_cdm/adapter.py:432-471 | for every JSON document and every spelling of it the depth read off the characters is the depth of the tree |
| `JsonDepth.RunOfDoc` | packages/cdm/synapse_cdm/adapter.py:435-471 | inside any text outside a string, scanning one document raises the deepest level by exactly its depth and returns to the level it started at |
| `JsonDepth.LoadDepth` | packages/cdm/synapse_cdm/adapter.py:474-486 | decoding never deepens a document, and keeps its depth when no key repeats |
| `JsonDepth.ScanBoundsDecoded` | packages/cdm/synapse_cdm/adapter.py:435-486 | the depth of the text bounds the container depth of the decoded document, and equals it when no key repeats |
| `JsonDepth.ContainerDepthByStack` | packages/cdm/synapse_cdm/adapter.py:474-486 | the stack loop ends and computes the recursive container depth |
| `JsonDepth.NodeOpened` | packages/cdm/synapse_cdm/adapter.py:478-485 | replacing a stacked node by its children loses no depth and leaves less work |
| `RepeatedPaths.DepthMeans` | packages/cdm/synapse_cdm/adapter.py:474-486 | a document is deeper than `n` exactly when a list or an object stands below `n` others |
| `RepeatedKeys.RepeatedKeyPath` | packages/cdm/synapse_cdm/dis7_host.py:120-147 | the explicit-stack walk ends, and reports the first marker in document order |
| `RepeatedKeys.WalkFindsFirstRepeat` | packages/cdm/synapse_cdm/dis7_host.py:113-147 | marking objects bottom-up and then walking reports nothing exactly when no object at any depth repeats a key, and otherwise the spelled path of the first one in document pre-order of the raw tree |
| `RepeatedKeys.WalkFindsFirst` | packages/cdm/synapse_cdm/dis7_host.py:120-147 | the same below any path, frozen or not: under a key that cannot be spelled the path of the ancestor is reported |
| `RepeatedKeys.FirstLocationIsRepeat` | packages/cdm/synapse_cdm/dis7_host.py:120-133 | the first location leads to an object of the raw tree that repeats a key |
| `RepeatedKeys.NoLocations` | packages/cdm/synapse_cdm/dis7_host.py:113-117 | there is a location exactly when some object repeats a key |
| `RepeatedKeys.KeysCounted` | packages/cdm/synapse_cdm/dis7_host.py:113-117 | counting the distinct keys against the pairs is comparing the keys pairwise |
| `RepeatedKeys.HookIsInvisible` | packages/cdm/synapse_cdm/dis7_host.py:113-117 | on a document without repeated keys the hook changes nothing of the decoded value |
| `RepeatedKeys.LoadDocument` | packages/cdm/synapse_cdm/dis7_host.py:163-174 | every spelling of every JSON document: too deep exactly past the bound; accepted exactly when within it and without a repeated key, with the value a plain decoder gives; otherwise the path of the first repeat |
| `RepeatedPaths.PathMeans` | packages/cdm/synapse_cdm/dis7_host.py:120-147 | the text of a path: keys with a dot in front but for the first, indices in brackets, up to the first key that is not `[a-z][a-z0-9_]{{0,31}}`, and `$` where no step is written |
| `RepeatedPaths.FirstRepeatMeans` | packages/cdm/synapse_cdm/dis7_host.py:120-147 | where a key is repeated, the object reported stands at a place, of items and members by number, that no other such object is before |
| `RepeatedPaths.RepeatsIff` | packages/cdm/synapse_cdm/dis7_host.py:113-117 | nothing is reported exactly when no object at any place has two members of one key |
| `ProtocTokens.Tokens` | gates/protoc_text.py:64-73 | the match loop yields the recursive tokenization, or fails where it does |
| `ProtocTokens.TokenExtends` | gates/protoc_text.py:49-56 | a token is matched again, with its kind and length, in front of any text that may follow it |
| `ProtocTokens.TokensOfLayout` | gates/protoc_text.py:49-73 | tokens laid out with any blanks and comments, kept apart where two would run together, are exactly the tokens read |
| `ProtocLexemes.TokenMeans` | gates/protoc_text.py:49-56 | one token is exactly one lexeme of its kind: strings, bracketed names, marks, words, and hexadecimal and decimal numbers with point, exponent and suffix, spelled out |
| `ProtocLexemes.FillerMeans` | gates/protoc_text.py:50 | six blanks, and comments to the end of their line, stand between tokens |
| `ProtocStrings.UnescapeBody` | gates/protoc_text.py:76-117 | the index loop computes the recursive unescaping, with its five refusals |
| `ProtocStrings.UnescapeInverts` | gates/protoc_text.py:76-117 | unescaping inverts every escaping, each octet written plain, as a letter escape, in octal or in hexadecimal |
| `ProtocStrings.EveryStringCanBeWritten` | gates/protoc_text.py:76-117 | every octet string has an escaping, so the inverse reaches all of them |
| `ProtocStrings.QuotedIsToken` | gates/protoc_text.py:51 | an escaped string between its quotes is one string token |
| `ProtocEscapes.SpelledReadsBack` | gates/protoc_text.py:58-117 | octets read back however each is spelled: an ASCII character bare, one of eleven letters by a table of its own, three octal digits, two hexadecimal |
| `ProtocEscapes.PrintedReadsBack` | gates/protoc_text.py:58-117 | every octet string, as protoc prints it, reads back |
| `ProtocEscapes.ShortRead` | gates/protoc_text.py:94-106 | one or two octal digits that no third follows, and one hexadecimal digit that no second follows, stand for the number they write |
| `ProtocEscapes.CharacterRead` | gates/protoc_text.py:86-89 | a bare character stands for its UTF-8 octets, decoded by the table of RFC 3629, section 4 |
| `ProtocEscapes.UnicodeRead` | gates/protoc_text.py:107-112 | four or eight hexadecimal digits stand for the UTF-8 octets of the character they number; a surrogate and a number past the last character are refused |
| `ProtocEscapes.Refused` | gates/protoc_text.py:90-114 | a lone backslash, an unknown escape, an octal number past one octet and an `x` without a digit are refused |
| `ProtocText.Reader.Scalar` | gates/protoc_text.py:145-157 | reading a scalar moves the position over exactly the tokens of one value; adjacent strings are joined |
| `ProtocText.Reader.Message` | gates/protoc_text.py:159-189 | reading fields up to the closing mark moves the position over exactly them and returns the recursive reading |
| `ProtocText.Parse` | gates/protoc_text.py:129-191 | the stateful parser returns the recursive reading of the text, or its error |
| `ProtocText.FieldRead` | gates/protoc_text.py:159-189 | a shown field is read back, and what follows it is left |
| `ProtocText.TextRoundTrip` | gates/protoc_text.py:64-191 | parsing a printed message gives the message back, whichever delimiter, colon, separator, string chunks, escapes, blanks and comments the text uses |
| `ProtocText.EveryMessageCanBeShown` | gates/protoc_text.py:129-191 | every message of printable names and values is shown by some text, so the round trip reaches it |
| `ProtocText.IntegerReadBack` | gates/protoc_text.py:120-126 | every integer written in decimal is one number token and reads back as itself |
| `ProtocGrammar.AcceptedIsGrammar` | gates/protoc_text.py:129-191 | whatever is accepted is fields: a name, a scalar behind a colon or a message between braces or angles, a separator or none; and these are returned |
| `ProtocLexemes.HexIsInteger` | gates/protoc_text.py:120-124 | digits behind `0x` are an integer in base sixteen |
| `ProtocLexemes.DigitsAreTens` | gates/protoc_text.py:120-125 | digits alone, or in front of an `f`, are an integer in base ten |
| `ProtocLexemes.OtherIsFloat` | gates/protoc_text.py:120-126 | every other number is a float, without its last `f` |
| `Decimals.DecimalWrites` | gates/protoc_text.py:124-125 | a decimal numeral has the digits of its number and no leading zero |
| `ContractSplit.Split` | gates/tacticalapi_contract_comments.py:136-168 | the cursor loop computes the split into pieces, and stops on an unterminated string or block comment |
| `ContractSplit.PiecesCoverSource` | gates/tacticalapi_contract_comments.py:136-168 | every character stands in exactly one piece, in order: code, string, or comment with its delimiters |
| `ContractSplit.CodeHasNoComments` | gates/tacticalapi_contract_comments.py:136-168 | the code half splits into exactly its code pieces: taking a comment out never makes a new comment or joins two pieces |
| `ContractSplit.SplitTwice` | gates/tacticalapi_contract_comments.py:136-168 | splitting the code half again gives it back, with no comments |
| `ContractMeaning.SplitMeans` | gates/tacticalapi_contract_comments.py:136-168 | a source is split exactly when it can be read piece by piece, a line comment to the end of its line, a block comment to the first closing delimiter, a string to its closing quote; there is one such reading, and the code and the comments are its own |
| `ContractLiterals.RunsOf` | gates/tacticalapi_contract_comments.py:180-193 | the two loops over the parts yield exactly the stretches of the literal that start and end at a part boundary |
| `ContractLiterals.RunOfRun` | gates/tacticalapi_contract_comments.py:180-193 | a run of a run is a run |
| `ContractLiterals.Fingerprint` | gates/tacticalapi_contract_comments.py:196-227 | what is fingerprinted over all sources, or nothing where one of them is unreadable |
| `ContractLiterals.NameFromCodeNeverHits` | gates/tacticalapi_contract_comments.py:208-256 | with injective digests a text whose literals are all names of the code, or runs of them, has no match |
| `ContractLiterals.CodeHalfNeverHits` | gates/tacticalapi_contract_comments.py:208-256 | the code half of every source has no match |
| `ContractLiterals.HitsAreFingerprinted` | gates/tacticalapi_contract_comments.py:215-256 | every match is a fingerprinted value, and no fingerprinted value is a run of a code literal |
| `ContractLiterals.HeldByLiteral` | gates/tacticalapi_contract_comments.py:171-193 | a value standing in a text between word boundaries is a run of the literal that holds it |
| `ContractLiterals.FingerprintedIsLiteral` | gates/tacticalapi_contract_comments.py:215-227 | every fingerprinted value has the shape of a literal: word characters with single joiners between them |
| `ContractLiterals.CopyIsFound` | gates/tacticalapi_contract_comments.py:215-256 | a fingerprinted value is matched in every text it stands in, as a part of a longer literal and in any capitalisation |
| `ContractMeaning.LiteralsMean` | gates/tacticalapi_contract_comments.py:171-173 | the literals of a text are the longest stretches of word characters with single joiners between them, in lower case |
| `ContractMeaning.FingerprintMeans` | gates/tacticalapi_contract_comments.py:196-227 | a value is fingerprinted exactly when it has eight characters and a digit, is a run of no code literal, and is a run of such a literal of some source's comments that is itself a run of no code literal |
| `ContractMeaning.MatchMeans` | gates/tacticalapi_contract_comments.py:248-256 | a text is reported for exactly the telling runs of its literals whose digest is stored |
| `ContractMeaning.FoundEverywhere` | gates/tacticalapi_contract_comments.py:136-256 | a telling value that stands in a comment of some source between word boundaries, and is a run of no code literal, is reported in every text it stands in |
| `AixmSequences.Sequences` | packages/cdm/synapse_cdm/aixm_resolve.py:347-378 | the pass over the sequence numbers gives one entry for each, in order, and appends the findings of each |
| `AixmSequences.ValidIsWinner` | packages/cdm/synapse_cdm/aixm_resolve.py:354-377 | an entry has a valid slice exactly when the multiset of its slices has a unique highest correction, and it is that one |
| `AixmSequences.ValidOfPermutation` | packages/cdm/synapse_cdm/aixm_resolve.py:354-377 | the valid slice does not depend on the order the slices arrive in |
| `AixmSequences.EntryConserves` | packages/cdm/synapse_cdm/aixm_resolve.py:354-377 | an entry holds every slice of its sequence exactly once, valid or superseded |
| `AixmResolve.Resolve` | packages/cdm/synapse_cdm/aixm_resolve.py:412-514 | the error cases, and otherwise the view, the applied slices, the findings and the history of the feature's slices |
| `AixmResolve.OrderPlaysNoPart` | packages/cdm/synapse_cdm/aixm_resolve.py:347-378 | for every permutation of the objects: the same outcome, source, baseline, applied change, statuses, operative structures and asserted codes, and the same disposition of each sequence |
| `AixmResolve.CancelledIsAbsent` | packages/cdm/synapse_cdm/aixm_resolve.py:267-276 | a TEMPDELTA sequence whose unique highest correction is a cancellation leaves the view as if the whole sequence were not there |
| `AixmResolve.ElsewhenIsAbsent` | packages/cdm/synapse_cdm/aixm_resolve.py:271-276 | so does any sequence whose valid slice does not cover the instant |
| `AixmResolve.LowerCorrectionIrrelevant` | packages/cdm/synapse_cdm/aixm_resolve.py:354-377 | a correction below the valid one, received at any time, changes nothing in the view |
| `AixmResolve.RecordStands` | packages/cdm/synapse_cdm/aixm_resolve.py:381-407 | every BASELINE, PERMDELTA and TEMPDELTA slice of the feature occurs exactly once in the history, at every instant |
| `AixmResolve.TimeMovesOneWay` | packages/cdm/synapse_cdm/aixm_resolve.py:381-407 | as the instant advances a sequence goes from future to applied or in force to expired and never back; cancelled, conflict and not applicable stay |
| `AixmResolve.OutcomeCounts` | packages/cdm/synapse_cdm/aixm_resolve.py:434-478 | resolved, unresolved and the source say exactly how many baselines and how many changes of the property compete; nothing is asserted when ambiguous |
| `AixmResolve.NeverUnknown` | packages/cdm/synapse_cdm/aixm_resolve.py:517-522 | the state `unknown` is never reported |
| `AixmResolve.NotStatedIff` | packages/cdm/synapse_cdm/aixm_resolve.py:445-514 | with no baseline in force the status is not stated exactly when no temporary change of the property is in force, or the one that is gives no code |
| `AixmResolve.UnresolvedIsNotStated` | packages/cdm/synapse_cdm/aixm_resolve.py:445-491 | a feature with no baseline whose status is not stated |
| `AixmResolve.AssertedHasSource` | packages/cdm/synapse_cdm/aixm_resolve.py:434-551 | an asserted code is stated, unscheduled, by a structure of an applied slice that is the unique highest correction of its sequence and covers the instant |
| `AixmResolve.ClosureIsAsserted` | packages/cdm/synapse_cdm/aixm_resolve.py:517-551 | on a runway or an airport a single unscheduled CLOSED structure is asserted whatever copies stand beside it |
| `AixmResolve.EventEndIsFinal` | packages/cdm/synapse_cdm/aixm_resolve.py:554-602 | an Event that has ended stays ended and one called off stays called off, in every order of the objects |
| `AixmResolve.History` | packages/cdm/synapse_cdm/aixm_resolve.py:381-407 | the loop gives each entry its disposition at the instant |
| `AixmMeaning.BaselineReported` | packages/cdm/synapse_cdm/aixm_resolve.py:434-491 | one baseline in force and no change of the property: its structures are the statuses, they are the source exactly when there are any, and they are read |
| `AixmMeaning.ChangeReported` | packages/cdm/synapse_cdm/aixm_resolve.py:452-478 | one change in force that states the property, and no two baselines: its structures replace all else and are read |
| `AixmMeaning.NothingReported` | packages/cdm/synapse_cdm/aixm_resolve.py:445-493 | neither: unresolved, no source, not stated |
| `AixmMeaning.AmbiguityReported` | packages/cdm/synapse_cdm/aixm_resolve.py:437-466 | two baselines, or two changes of the property: no status, no change applied, ambiguous |
| `AixmMeaning.ReadingMeans` | packages/cdm/synapse_cdm/aixm_resolve.py:517-551 | each state of a reading by what the structures hold: which are operative, scheduled, one for each signal, one code, several codes, none; and the code or the codes by signal |
| `AixmMeaning.InForceMembers` | packages/cdm/synapse_cdm/aixm_resolve.py:347-378 | the slices in force are those that are their sequence's one highest correction and whose begin and end hold the instant between them, once each |
| `AixmMeaning.DispositionMeans` | packages/cdm/synapse_cdm/aixm_resolve.py:381-407 | every disposition of a history by the positions of the valid slice |
| `AixmMeaning.HistoryOrder` | packages/cdm/synapse_cdm/aixm_resolve.py:347-407 | the entries of one interpretation are in order of their sequence numbers, a missing one last, each with slices of its own sequence |
| `AixmMeaning.FindingMeans` | packages/cdm/synapse_cdm/aixm_resolve.py:347-378 | the TS_005, TS_009, TS_011 and TS_019 findings are exactly those that the slices give rise to, with their numbers |
| `AixmMeaning.EventStateMeans` | packages/cdm/synapse_cdm/aixm_resolve.py:554-602 | each state of an Event by its valid slices: one that covers the instant, two that do, none valid, none with a begin, all of these over |
| `AixmFindings.PreviousIsRunnerUp` | packages/cdm/synapse_cdm/aixm_resolve.py:365-377 | the superseded slice that a moved begin is measured against is one that no other superseded slice outranks |
| `AixmFindings.FindingStableIff` | packages/cdm/synapse_cdm/aixm_resolve.py:365-377 | the TS_017 finding about a sequence is the same in every order of its slices exactly when all runners-up give the same finding |
| `AixmFindings.FindingsAgreeIff` | packages/cdm/synapse_cdm/aixm_resolve.py:347-378 | two orders of the objects give the same findings exactly when TS_017 says the same of every sequence in both: every other finding is the same in every order |
| `AixmFindings.FeatureStableIff` | packages/cdm/synapse_cdm/aixm_resolve.py:347-378 | the findings of a feature are the same in every order of its objects exactly when in every sequence all runners-up give the same TS_017 finding |
| `AixmFindings.FindingDependsOnOrder` | packages/cdm/synapse_cdm/aixm_resolve.py:365-377 | two orders of the same three slices of which one reports a moved begin and the other does not |
| `PdfText.OffsetMap` | gates/pdf_text.py:201-219 | the loop over the pages computes text and owners page by page |
| `PdfText.MappedIsNormalized` | gates/pdf_text.py:187-219 | for every page list the page-by-page text is the normalised text of the joined pages |
| `PdfText.NormalOfJoin` | gates/pdf_text.py:187-198 | normalising two texts joined by a space is joining the two normal texts, without the space when either is empty |
| `PdfText.OwnersAscend` | gates/pdf_text.py:201-219 | the owner list is as long as the text, names pages only and never goes back |
| `PdfText.PageOwned` | gates/pdf_text.py:208-219 | the own text of every page stands unbroken in the whole and is owned by the page |
| `PdfText.OwnerIsPage` | gates/pdf_text.py:208-219 | every character that is no blank is owned by the page whose own text it stands in |
| `PdfMeaning.GapOwned` | gates/pdf_text.py:213-215 | the space in front of a page's own text belongs to the page before it |
| `PdfText.NoneMissed` | gates/pdf_text.py:222-224 | every occurrence of a needle starts inside one of those counted |
| `PdfText.Locate` | gates/pdf_text.py:232-249 | a match for each occurrence: as many as `count` says |
| `PdfText.MatchAttribution` | gates/pdf_text.py:243-249 | a match is attributed to the page its first character stands on, and does not span exactly when it lies in that page's own normalised text |
| `PdfText.PerPage` | gates/pdf_text.py:252-257 | the tally in page order, whose hits sum to `count` |
| `PdfMeaning.NormalMeans` | gates/pdf_text.py:187-198 | normal text is the characters that are no blank, in order, with one space between two that did not stand next to each other |
| `PdfMeaning.LocatedMeans` | gates/pdf_text.py:232-249 | each match is the needle, at the start of its occurrence, on the page it starts on |
| `PdfMeaning.TallyMeans` | gates/pdf_text.py:252-257 | a page is in the tally with a number exactly when that is how many matches it has; pages come in order |
| `ParksTable.CheckSetClaims` | gates/parks_table.py:278-311 | no complaint exactly when every member of every claim is an open row |
| `ParksTable.ShapesMonotone` | gates/parks_table.py:324-344 | all five shapes stay once they hold: reopening more closures never loses one |
| `ParksTable.NewestFirstDescends` | gates/parks_table.py:408-409 | the closures are taken newest first |
| `ParksTable.ReversedTo` | gates/parks_table.py:369-430 | the loop reopens a prefix of the closures, newest first, and stops at the first clean copy that has the shape, or when none is left |
| `ParksTable.TrialClean` | gates/parks_table.py:360-366 | a copy is clean exactly when the live claims name rows of the table that are open by then; claims put back bring no complaint |
| `ParksTable.RestoredIff` | gates/parks_table.py:412-430 | on any table some copy is accepted exactly when a row is closed, the fully reopened table has the shape and no live claim names a park that does not exist |
| `ParksTable.FailureSentenceIff` | gates/parks_table.py:369-430 | exactly when a reversal succeeds; and what is said of one that fails, that the shape still does not hold, is untrue exactly when the table lacks the shape, the fully reopened copy has it, and no row is closed or a live claim names a park that does not exist |
| `ParksTable.NothingClosedMisleads` | gates/parks_table.py:425-430 | a table with no closed row of which the sentence is untrue |
| `ParksTable.PhantomMisleads` | gates/parks_table.py:425-430 | a table with a claim on a park that does not exist of which the sentence is untrue |
| `ParksTable.ReversalIsShortest` | gates/parks_table.py:412-430 | on a table without complaints a copy is accepted exactly when it has the shape, and so is every longer one: the reversal stops at the shortest |
| `ParksTable.CopyDiffersOnlyThere` | gates/parks_table.py:360-366 | a copy differs from the table only in the reopened rows and in withdrawn claims put back, all of whose members are open in it |
| `ParksMeaning.ShapeMeans` | gates/parks_table.py:324-344 | the five shapes, each by rows and members |
| `ParksMeaning.ProblemMeans` | gates/parks_table.py:278-311 | exactly the members of live claims that are no row, or a closed one, are complained of |
| `ParksMeaning.TrialIsCopy` | gates/parks_table.py:360-423 | a copy row by row and claim by claim: rows reopened with their dates struck, and every withdrawn claim put back that is whole and not live |
| `ParksMeaning.ReversedMeans` | gates/parks_table.py:369-430 | what is handed back: the latest closures reopened, with the shape and nothing to complain of, which is so with none fewer; or all of them, where it is so with no number of them |
| `ParksTable.CheckStated` | gates/parks_table.py:433-463 | the complaints are exactly the members that are no row or closed, the parks claimed more than once and the open parks left out; none exactly when the groups are a partition of the open parks |
| `ParksTable.PartitionIff` | gates/parks_table.py:433-463 | there is nothing to complain of exactly when the groups are a partition of the open parks |
| `ParksMeaning.PartitionMeans` | gates/parks_table.py:433-463 | a statement is a partition exactly when its memberships, in whatever groups, are the open rows, each once |
| `ParksTable.ClaimAll` | gates/parks_table.py:444-454 | every membership is counted, and complained of exactly when the member is no row or is closed |
| `OnBlock.OnBlock` | gates/governance_audit.py:199-222 | the block of the first `on:` line that has one, none exactly when there is none, and inner walks that take no more steps in all than there are lines |
| `OnBlock.BlockIsMatch` | gates/governance_audit.py:202-209 | what the walker accepts is a match of the pattern it replaced |
| `OnBlock.MatchIsBlock` | gates/governance_audit.py:202-209 | and every match of the pattern is a block at the same place |
| `OnBlock.NoneMissed` | gates/governance_audit.py:199-222 | when the walker finds nothing the pattern matches nowhere |
| `OnBlock.FoundIsFirst` | gates/governance_audit.py:199-222 | the block found is the first match, with its text |
| `OnBlock.MatchMeans` | gates/governance_audit.py:202-209 | the pattern, spelled out: which lines are indented or empty, which characters are whitespace |
| `OnBlock.TextOfLines` | gates/governance_audit.py:211 | splitting a text into lines loses nothing |
| `OnBlock.LinesOfText` | gates/governance_audit.py:211 | and there is one way to split it |
| `Rulesets.CanonicalIff` | gates/governance_audit.py:459-467 | two canonical rulesets are equal exactly when the single-valued fields are and the rules and the actors are the same up to order |
| `Rulesets.Changes` | gates/governance_audit.py:503 | the keys an update would change; none exactly when the canonical forms are equal |
| `Sorting.SortedIff` | gates/governance_audit.py:461-464 | two lists sort to the same list exactly when one is a reordering of the other |
| `Sorting.LeqMeans` | gates/governance_audit.py:461-464 | the order is by code point: one string is the start of the other, or is less where they first differ |
| `RulesetApply.ReadLive` | gates/governance_audit.py:429-456 | the requests of a reading, in order, and the details it could read, for any server |
| `RulesetApply.Apply` | gates/governance_audit.py:509-546 | the run against any server: its requests, in order, and its outcome |
| `RulesetApply.FourIsSilent` | gates/governance_audit.py:514-522 | 4 is returned exactly on the refusal, and then no request is made |
| `RulesetApply.OneWrite` | gates/governance_audit.py:523-542 | whatever the server answers there is at most one write, of the proposal's six keys, after every reading and followed by nothing but one reading back |
| `RulesetApply.ZeroIsVerified` | gates/governance_audit.py:523-546 | 0 means that nothing was written and the server showed a ruleset equal to the proposal, or that there was one write and the answer to the last request, the reading back, equals the proposal |
| `RulesetApply.UnreadableListingCreates` | gates/governance_audit.py:445-501 | whatever the server, where the listing cannot be read the run plans to create and writes |
| `RulesetMeaning.ReadingMeans` | gates/governance_audit.py:429-456 | every request of a reading in order, the branch that is asked for, the details that are kept, and exactly when the reading raises |
| `RulesetMeaning.PlanMeans` | gates/governance_audit.py:470-505 | what is done with what was read: nothing where the first ruleset of the name equals the proposal, else it is written to, else one is created |
| `RulesetMeaning.ChangesMean` | gates/governance_audit.py:503 | the keys of an update are those that differ |
| `RulesetMeaning.WrittenMeans` | gates/governance_audit.py:531-546 | the one write and where it goes, the ruleset read back, and exactly when 0, 1 or an error follows |
| `RulesetMeaning.RunMeans` | gates/governance_audit.py:523-546 | how reading, planning and writing make up a run; a proposal that lacks a key is not written |
| `RulesetReadings.ReadAllIsTrue` | gates/governance_audit.py:429-456 | against a server that shows only what it holds and may refuse any reading, what is read is true, and holds a ruleset of a name exactly when one was listed and its detail answered |
| `RulesetReadings.PlanRightIff` | gates/governance_audit.py:445-505 | against such a server the plan is the one its store calls for exactly when no ruleset has the proposal's name or one that has it was listed and its detail answered; otherwise it is to create |
| `RulesetReadings.UnseenIsCreated` | gates/governance_audit.py:496-532 | a run that did not see the ruleset of the proposal's name sends a second one |
| `RulesetReadings.HiddenListingCreates` | gates/governance_audit.py:445-532 | whatever is stored under the name, a listing that is refused makes the run create another |
| `RulesetReadings.HiddenDetailCreates` | gates/governance_audit.py:447-532 | so does a detail that is refused although the listing names the ruleset |
| `RulesetServer.PlanIsRight` | gates/governance_audit.py:496-505 | against a server that keeps its store the plan creates exactly when no ruleset has the name, updates the one that has it when it differs, and does nothing when it is equal |
| `RulesetServer.Converges` | gates/governance_audit.py:509-546 | one run against such a server returns 0 and leaves the proposal as the only ruleset of its name, with every other ruleset untouched |
| `RulesetServer.SecondRunIsSilent` | gates/governance_audit.py:509-546 | a second run only reads, returns 0 and changes nothing |
| `RulesetServer.FaithfulExists` | gates/governance_audit.py:341-345 | there is such a server for every store to start from |
| `FieldClosure.Closure` | gates/tacticalapi_field_table.py:214-233 | the worklist ends; it returns, sorted and once each, exactly the messages a path of message-typed fields reaches from the roots and exactly the enums they name, and raises with a reachable message that is undefined or unreadable otherwise |
| `FieldClosure.ClosedHoldsReachable` | gates/tacticalapi_field_table.py:214-233 | a set that holds the roots and what its members refer to holds everything reachable |
| `FieldClosure.ReadFields` | gates/tacticalapi_field_table.py:226-232 | what one message's fields add to the worklist and to the enums |
| `FieldClosure.TargetsMean` | gates/tacticalapi_field_table.py:226-232 | a message refers to a name when some field of it has that kind alone and one type name, which is the name behind any dots |
| `FieldClosure.UnreadableMeans` | gates/tacticalapi_field_table.py:226-232 | a message cannot be read when a field says its type or type name twice, or is a message or an enum and names none |
| `AdapterClasses.ClassBases` | gates/bump_derivation.py:491-500 | the bases of every class name, joined over the modules that state it |
| `AdapterClasses.Derived` | gates/bump_derivation.py:503-517 | the fixed point ends at the least set that holds `Adapter` and every class with a base in it, which is the set of classes with a line of descent from `Adapter` |
| `BumpFindings.FloorIsStrongest` | gates/bump_derivation.py:264-269 | the floor bounds every signal, and some signal reaches it unless there is none |
| `BumpFindings.VerdictIsFound` | gates/bump_derivation.py:257-263 | a verdict about a unit stands for a signal or an ambiguity in the lists, and back |
| `BumpFindings.Derivation.Floor` | gates/bump_derivation.py:264-269 | the loop computes the floor of the signals |
| `BumpModules.ExplanationIff` | gates/bump_derivation.py:905-944 | a changed body is explained as MAJOR exactly when a member of its module's rosters went, as MINOR exactly when one came and none went, and not at all otherwise |
| `BumpModules.ClassifyModule` | gates/bump_derivation.py:947-1029 | about every unit of a module exactly the verdicts due are added, with their kinds, and about nothing else |
| `BumpModules.EveryChangedUnitIsJudged` | gates/bump_derivation.py:978-1029 | a unit that differs between two parsed ends gets exactly one signal or ambiguity unless it is one of the version file's two; any other gets none |
| `BumpDerive.Derive` | gates/bump_derivation.py:845-902 | about every unit exactly what the fixture sets, the changed files and the schema version are due |
| `BumpDerive.FoundIff` | gates/bump_derivation.py:845-902 | what is found about a unit is exactly what some fixture set, the schema version or a changed path proves about it |
| `BumpDerive.ChangedPathCounts` | gates/bump_derivation.py:859-892 | a file whose bytes moved is never passed over, but for the cases that another signal covers |
| `BumpDerive.QuietArc` | gates/bump_derivation.py:845-902 | an arc over the same files and schema version proves nothing about any unit |
| `BumpDerive.SchemaJudgedIff` | gates/bump_derivation.py:894-900 | a changed `SCHEMA_VERSION` is judged exactly when both ends state it by a plain assignment of a constant and the constants differ |
| `BumpDerive.SchemaMoveUnseen` | gates/bump_derivation.py:1008-1015 | a schema version that is no longer assigned so is a changed unit that nothing judges |
| `BumpGate.ApplyRulings` | gates/bump_derivation.py:1092-1121 | a ruling that names no ambiguity is refused; otherwise the rulings are folded into a new derivation and the old one stays |
| `BumpGate.FoldingConserves` | gates/bump_derivation.py:1112-1121 | folding loses and invents nothing: signals stay, and each ambiguity becomes a signal of the kind ruled or stands |
| `BumpGate.RulingsNeverLower` | gates/bump_derivation.py:1112-1121 | whatever the rulings, the floor is not lowered |
| `BumpGate.SingleStepIff` | gates/bump_derivation.py:1155-1220 | a step is read back as the kind whose successor it is, and nothing else is a step |
| `BumpGate.SuccessorGrows` | gates/bump_derivation.py:1215-1220 | a stronger kind is a later version, and only a stronger one |
| `BumpGate.RefuseUnlessClean` | gates/bump_derivation.py:1224-1300 | a version passes exactly when no ambiguity stands, a version ruling names this very arc, the kind is at least the floor, and it is the floor or ruled; which refusal is given otherwise |
| `BumpGate.LastBefore` | gates/bump_derivation.py:1303-1316 | the base is the last release before the declared version |
| `BumpGate.FoldedIff` | gates/bump_derivation.py:1112-1121 | with the rulings folded in, the signals are exactly what the arc says or a ruling answers, the ambiguities exactly what it asks and no ruling answers, and the floor is the strongest of the former |
| `BumpGate.FloorUnique` | gates/bump_derivation.py:264-269 | an arc has one floor under given rulings |
| `BumpGate.Judge` | gates/bump_derivation.py:1092-1121 | the findings of an arc under the rulings of a section, or a ruling for a unit the arc does not ask about |
| `BumpGate.RefusedDoesNotPass` | gates/bump_derivation.py:1224-1300 | each refusal, by its reason, excludes that the version passes |
| `BumpGate.PassesIsEnough` | gates/bump_derivation.py:1155-1300 | a version that passes is lexicographically no less than the successor by the floor, and is it unless there is a version ruling |
| `BumpGate.AcceptedIsEnough` | gates/bump_derivation.py:1224-1300 | a version that passes answers everything the arc proves: units, files, fixture sets and the schema version |
| `BumpGate.Measure` | gates/bump_derivation.py:1303-1346 | a version is accepted exactly when it passes: one step from the last release, no ruling stale, no unit left unruled, the floor of the arc under the rulings its kind, or below it with the section's one version ruling naming this arc and kind; the report names that floor, and each refusal has its reason |
| `BumpGate.Pending` | gates/bump_derivation.py:1327-1333 | the pending kind is the floor of the arc from the released version to the working tree under its rulings, and the number its successor |
| `BumpMeaning.GainedIsMinor` | gates/bump_derivation.py:978-986 | a public name that a shipped module gained, or a check that the harness gained, makes a version that passes at least the next minor number |
| `BumpMeaning.LostIsMajor` | gates/bump_derivation.py:993-1003 | a public name that went, alone or with its module, or a check of the harness, makes it the next major number |
| `BumpMeaning.MovedSetCounts` | gates/bump_derivation.py:850-857 | a fixture set that came makes it at least the next minor number, one that went the next major |
| `BumpMeaning.SchemaMoveIsMinor` | gates/bump_derivation.py:894-900 | a schema version that both ends state and that differs makes it at least the next minor number |
| `BumpMeaning.RewrittenCounts` | gates/bump_derivation.py:905-1029 | a changed body makes it the next major number where a roster of its module lost a member, at least the next minor where one gained, and passes only under a ruling where none moved |
| `BumpMeaning.UnclassedIsRuled` | gates/bump_derivation.py:865-892 | a module that does not parse, a file of no class and a metadata file that came or went each pass only under a ruling |
| `BumpMeaning.MetadataCounts` | gates/bump_derivation.py:865-874 | every signal of the metadata's reader is answered |
| `BumpMeaning.SmallArcIsPatch` | gates/bump_derivation.py:845-1029 | an arc of changed documents, comment-only edits and private names that came or went has the floor PATCH, and passes as the next patch number or under a ruling on the number |
| `BumpMeaning.DeclarationProvesNothing` | gates/bump_derivation.py:1009-1011 | an arc on which only the number under judgement moved proves nothing, and passes only under a ruling on the number |
| `BumpMeaning.PassingNumber` | gates/bump_derivation.py:1155-1220 | the number of a version that passes, by its kind |
| `BumpMeaning.DottedMeans` | gates/bump_derivation.py:1249-1250 | a version in a ruling is three decimal numerals with points between them |
| `BumpMeaning.NotesMean` | gates/bump_derivation.py:1319-1323 | the section a version is judged by: its own once released, the unreleased one before |

## Left out

- Sockets, HTTP, the `gh` client, git subprocesses, clocks, files and printing. A socket is the list of
  chunks it answers with, a server is a function from the requests so far to an answer, the snapshots of an
  arc and the sections of the migration notes are given.
- StompFrames.ParseFrames: a content-length that is negative is refused like one that is no number; the
  source computes with it and may read octets twice. Octets that are not UTF-8 are kept, where the source
  puts a replacement character.
- StompClient.Stomp.Wait: CONNECT, SUBSCRIBE and DISCONNECT are not sent, and the deadline passes after the
  last chunk.
- JsonDepth.ScanIsDepth: numbers, `true`, `false` and `null` are lexemes without brackets, quotes or backslashes.
- RepeatedKeys.LoadDocument: the checks on size, NUL, UTF-8 and byte-order mark before the depth bound, and
  the limits on number literals, are not modelled; neither are `_read_bounded` and `_same_json`.
- ProtocTokens.Tokens: a number token is the longest match, without the pattern's backtracking, which can only
  change where an unreadable text is reported. Offsets and the wording of errors are left out.
- ProtocText.Parse: floating-point numbers stay lexemes; `values`, `single` and `text` are one-line readings.
- ContractLiterals.CopyIsFound: case folding and the word class are those of ASCII, and `matches` is a set, not
  its sorted list. The word windows of `check_prose` are not modelled.
- AixmResolve.Resolve: reading a slice's structures off the adapter's blocks is given; reasons, the list of
  rules applied and the rendered references are left out. The place of an object in the caller's list is
  kept only as the order of equal corrections, so a finding names its sequence and correction numbers and
  not the places of the slices. `event_state` is modelled without its scenario.
- PdfText.Locate: needles are strings that are not blank; patterns, `findall` and `text_pages` are left out.
- ParksTable.ReversedTo: the sentence it writes and the claims' texts are left out, and a title is kept as
  whether it names a document series. Parsing the table is given.
- RulesetApply.Apply: a rule or an actor is its dump with sorted keys, so values that Python holds equal and
  JSON writes differently (`1` and `true`) are told apart; a ruleset whose `rules` key is null, which
  raises, is not modelled. Printing the plan is left out, and so are `drift` and `audit`.
- FieldClosure.Closure: the name that is reported first when several messages are undefined follows the
  source's order, and the contract says only that it is a reachable one. `index` and the rows are left out.
- BumpDerive.Derive: `_classify_pyproject` is a parameter, a flat table of cases. The contract says which
  findings are made about each unit, not the order they are listed in, and their wording is left out.
- BumpGate.Measure: reading rulings and versions out of text is given, and a refusal names one unit where
  the source lists all.
- OnBlock.OnBlock: the reading of event names inside the block, the matrix expansion and `run_block_expressions`.
- Other gates of the repository (pin paths, commit messages, witness and deploy records, conformance tables):
  set comparisons and input or output plumbing, which would add easy members.
