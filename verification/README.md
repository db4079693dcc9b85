# MappaMentis domain core in Dafny

MappaMentis lets a user build mind maps: graphs of idea nodes joined by
labelled links, where each node may carry markdown notes. A Pomodoro
work/break timer is tied to each map. This project models the in-memory
domain layer and proves its invariants:

- **The `MindMap` aggregate** (`MindMap.dfy`). Nodes and links are kept in
  two insertion-ordered lists. Node ids are unique, link ids are unique,
  and no link is dangling or a self-loop. `RemoveNode` cascades to every
  link that touches the removed node. This cascade is a `foreach` over a
  precomputed list that calls `List.Remove` once per link, and the model
  proves it removes exactly the links that touch the node. The order of
  the remaining links is kept.
- **The `PomodoroTimer` aggregate** (`PomodoroTimer.dfy`). It is a state
  machine over `Idle`, `Running`, `Paused` and `OnBreak`, with guards that
  throw on illegal transitions. Each class method is proved equal to a pure
  step function on a `Timer` value. Lemmas over those functions show four
  things:
  - every call, successful or not, keeps the timer invariant;
  - `Completed` is never entered;
  - pause/resume keeps the running time, because `Resume` moves
    `StartedAt` forward;
  - any number of pause/resume cycles moves `StartedAt` forward by exactly
    the total time paused.
- **The child entities** `MindNode`, `MindLink` and `MarkdownNote`
  (`MindNode.dfy`, `MindLink.dfy`, `MarkdownNote.dfy`). This covers their
  null guards, their null defaults, the self-loop guard and the
  unique-note-id invariant.
- **The value objects** `Title`, `NodeId` and `MapId` (`Title.dfy`,
  `NodeId.dfy`, `MapId.dfy`). This covers validated construction and
  equality by value, including the null cases of `==` and `!=`.
- **`MindMapService`** (`MindMapService.dfy`). The repository is a field of
  type `map<Guid, MindMap>`. The commands validate their input, look up
  the map and call aggregate operations. The two queries, content search
  and children-of-node, are pure functions over the loaded map.

`Common.dfy` holds the shared vocabulary:
- `Guid`, with 0 as `Guid.Empty`;
- `Nullable<T>` for C# null;
- `Int32`;
- time as .NET ticks, where `TimeSpan.FromMinutes(m)` is
  `m * 600_000_000`;
- the exceptions as an `Error`, carried by `Status` or `Result`.

`Text.dfy` models `string.IsNullOrWhiteSpace`, `string.Trim` and the
case-insensitive `Contains`. `Sequences.dfy` holds the LINQ and `List<T>`
operations the aggregates use (`Where`, `Any`, `FirstOrDefault`, `Remove`)
and the lemmas about them.

Model conventions:
- A C# exception becomes a `Fail`/`Failure` result.
- Where the code assigns a field and then throws, the model assigns the
  field and then fails. This happens in `MindMap.Update`,
  `MarkdownNote.Update` and `PomodoroTimer.UpdateDurations`.
- A constructor that can throw becomes a `static method Create` that
  returns a `Result`. The Dafny constructor covers the part after the
  guard.
- `DateTime.UtcNow` becomes a `now` parameter.
- `Guid.NewGuid()` becomes an id passed in by the caller.

Behaviour of the code that the model keeps as written:
- Three operations assign a field before throwing, and the model keeps
  that partial update:
  - `MindMap.Update` keeps the new title when the description is null;
  - `MarkdownNote.Update` keeps the new title when the content is null;
  - `UpdateDurations` keeps the new work duration when the break duration
    is invalid.
- `AddNodeWithLinkAsync` adds the node before the link. When the link id
  is taken, the node stays added.
- `MindMap` does not check the length of its title or whether it is
  blank. Its constructor accepts any title, null included, and
  `MindMap.Update` rejects only a null title. `CreateMindMapAsync` rejects
  a blank title but sets no length limit.
- Removing a node does not delete its notes separately. The notes belong
  to the node object and leave the map with it.

## Model

| member | source | states |
|---|---|---|
| MindMaps.MindMap.constructor | src/MappaMentis.Domain/Entities/MindMap.cs:21-28 | stores id, title and description as given (null included), starts with no nodes and no links, and satisfies the invariant |
| MindMaps.MindMap.AddNode | src/MappaMentis.Domain/Entities/MindMap.cs:33-43 | a null node fails with ArgumentNull and a duplicate id fails with InvalidOperation, each leaving the map unchanged; success appends exactly that node, leaves the links alone and sets UpdatedAt; the invariant is kept |
| MindMaps.MindMap.RemoveNode | src/MappaMentis.Domain/Entities/MindMap.cs:48-66 | an absent id changes nothing, not even UpdatedAt; a present id removes that node and exactly the links touching it, keeping the order of the rest; the invariant (no dangling link) is kept |
| MindMaps.MindMap.RemoveEach | src/MappaMentis.Domain/Entities/MindMap.cs:59-62 | the foreach loop that calls List.Remove on each collected link leaves exactly the links outside the collected list |
| MindMaps.MindMap.AddLink | src/MappaMentis.Domain/Entities/MindMap.cs:71-87 | a null link fails with ArgumentNull; a missing endpoint fails before the duplicate-id check; every failure leaves the map unchanged; success appends exactly that link and keeps the invariant |
| MindMaps.MindMap.RemoveLink | src/MappaMentis.Domain/Entities/MindMap.cs:92-100 | removes only the link with that id, leaves the nodes alone, and changes nothing (UpdatedAt included) when the id is absent |
| MindMaps.MindMap.Update | src/MappaMentis.Domain/Entities/MindMap.cs:105-110 | a null title fails with nothing changed; a null description fails after the title was replaced; success sets both fields and UpdatedAt |
| MindMaps.IncidentLinks | src/MappaMentis.Domain/Entities/MindMap.cs:55-57 | holds exactly the links whose source or target is the node |
| MindMaps.Detached | src/MappaMentis.Domain/Entities/MindMap.cs:53-62 | holds exactly the links that touch neither end to the node, as an order-preserving subsequence |
| MindMaps.AddNodeKeepsInvariant | src/MappaMentis.Domain/Entities/MindMap.cs:38-41 | appending a node with a fresh id keeps unique ids and referential integrity |
| MindMaps.AddLinkKeepsInvariant | src/MappaMentis.Domain/Entities/MindMap.cs:76-85 | appending a loop-free link with a fresh id and present endpoints keeps the invariant |
| MindMaps.RemoveLinkKeepsInvariant | src/MappaMentis.Domain/Entities/MindMap.cs:94-98 | dropping a link by id keeps the invariant |
| MindMaps.RemoveNodeKeepsInvariant | src/MappaMentis.Domain/Entities/MindMap.cs:53-62 | dropping a node together with every link that touches it leaves no dangling link |
| MindMaps.ExcludeIncidentIsDetached | src/MappaMentis.Domain/Entities/MindMap.cs:55-62 | removing the collected incident links from the list gives exactly the detached links |
| MindMaps.DetachedCons | src/MappaMentis.Domain/Entities/MindMap.cs:55-62 | the detached links of a list are decided one link at a time, front to back |
| MindMaps.RemoveMiddleNodeScenario | tests/MappaMentis.Domain.Tests/MindMapUnitTests.cs:430-463 | of nodes 1, 2, 3, 4, removing node 2 leaves nodes 1, 3, 4 in order |
| MindMaps.DetachMiddleNodeScenario | tests/MappaMentis.Domain.Tests/MindMapUnitTests.cs:430-463 | of the links 1->2, 2->3, 3->4, removing node 2 leaves only 3->4 |
| Sequences.IndexOfKey | src/MappaMentis.Domain/Entities/MindMap.cs:50 | the position FirstOrDefault finds: the first element with the key, or the end exactly when no element has it |
| Sequences.Filter | src/MappaMentis.Domain/Services/MindMapService.cs:122-124 | LINQ Where: the result holds exactly the elements satisfying the predicate, in their original order (multiplicities in Sequences.FilterCounts) |
| Sequences.FilterCounts | src/MappaMentis.Domain/Services/MindMapService.cs:122-124 | Where keeps every copy of each element it keeps and adds none: its result is a sub-multiset of the input with the full count of every kept element |
| Sequences.RemoveFirst | src/MappaMentis.Domain/Entities/MindMap.cs:53 | List.Remove: when `x` is present the result is the list without its first occurrence of `x` (everything before it, then everything after it); otherwise the list is unchanged |
| Sequences.RemoveFoundIsWithoutKey | src/MappaMentis.Domain/Entities/MindMap.cs:50-53 | with unique ids, removing the element FirstOrDefault found is the same as keeping every element with another id |
| Sequences.RemoveFirstFromExclude | src/MappaMentis.Domain/Entities/MindMap.cs:59-62 | one List.Remove step of the cascade loop extends the set of excluded links by one |
| Sequences.WithoutAbsentKey | src/MappaMentis.Domain/Entities/MindMap.cs:50-51 | removing an absent id leaves the list as it was |
| Sequences.SubsequenceKeysUnique | src/MappaMentis.Domain/Entities/MindMap.cs:53-62 | removing elements from a list with unique ids keeps the ids unique |
| Sequences.WithoutKeyCons | src/MappaMentis.Domain/Entities/MindMap.cs:50-53 | removal by id is decided one element at a time, front to back |
| Pomodoro.Initial | src/MappaMentis.Domain/Aggregates/PomodoroTimer.cs:21-38 | non-positive durations fail with ArgumentException, work checked first; otherwise Idle, SessionCount 0, no start, pause or remaining time, and the invariant holds |
| Pomodoro.Increment | src/MappaMentis.Domain/Aggregates/PomodoroTimer.cs:52 | the unchecked SessionCount++ is 32-bit two's-complement addition of one: the result is the one Int32 congruent to n + 1 modulo 2^32, so int.MaxValue wraps to int.MinValue |
| Pomodoro.AfterStart | src/MappaMentis.Domain/Aggregates/PomodoroTimer.cs:43-54 | fails exactly when Running, with nothing changed; otherwise Running, StartedAt = now, PausedAt null, RemainingTime = work minutes, one more session, UpdatedAt = now; the durations are always kept |
| Pomodoro.AfterPause | src/MappaMentis.Domain/Aggregates/PomodoroTimer.cs:59-67 | succeeds exactly from Running, giving Paused with PausedAt = now and UpdatedAt = now, StartedAt and RemainingTime kept; otherwise fails with nothing changed; durations and session count are always kept |
| Pomodoro.AfterResume | src/MappaMentis.Domain/Aggregates/PomodoroTimer.cs:72-85 | succeeds exactly from Paused, giving Running with PausedAt null and now - StartedAt equal to the old PausedAt - StartedAt, RemainingTime kept; durations and session count are always kept |
| Pomodoro.AfterStop | src/MappaMentis.Domain/Aggregates/PomodoroTimer.cs:90-97 | never fails; gives Idle with StartedAt, PausedAt and RemainingTime null, durations and session count kept, UpdatedAt = now |
| Pomodoro.AfterCompleteWorkSession | src/MappaMentis.Domain/Aggregates/PomodoroTimer.cs:102-110 | succeeds exactly from Running or Paused, giving OnBreak with RemainingTime = break minutes, UpdatedAt = now and StartedAt, PausedAt untouched; durations and session count are always kept |
| Pomodoro.AfterCompleteBreak | src/MappaMentis.Domain/Aggregates/PomodoroTimer.cs:115-123 | succeeds exactly from OnBreak, giving Idle with RemainingTime null, UpdatedAt = now and StartedAt, PausedAt untouched; durations and session count are always kept |
| Pomodoro.AfterUpdateDurations | src/MappaMentis.Domain/Aggregates/PomodoroTimer.cs:128-136 | fails unless Idle; non-positive work fails with nothing changed; non-positive break fails after the work duration was replaced; success sets both |
| Pomodoro.AfterResetSessionCount | src/MappaMentis.Domain/Aggregates/PomodoroTimer.cs:141-145 | never fails and changes only SessionCount (to 0) and UpdatedAt |
| Pomodoro.ApplyKeepsInvariant | src/MappaMentis.Domain/Aggregates/PomodoroTimer.cs:43-145 | every operation, successful or failing, keeps the timer invariant |
| Pomodoro.RunKeepsInvariant | src/MappaMentis.Domain/Aggregates/PomodoroTimer.cs:151-158 | after any sequence of calls both durations are positive and the Completed state is never reached |
| Pomodoro.PauseResumeKeepsRunningTime | src/MappaMentis.Domain/Aggregates/PomodoroTimer.cs:78-82 | after a pause at p and a resume at q the running time is the one at the pause, however long the pause |
| Pomodoro.CyclesShiftStart | src/MappaMentis.Domain/Aggregates/PomodoroTimer.cs:78-82 | any number of pause/resume cycles moves StartedAt forward by exactly the total paused time |
| Pomodoro.WorkAndBreakScenario | src/MappaMentis.Domain/Aggregates/PomodoroTimer.cs:43-123 | a 25/5 timer goes Idle, Running (one session), OnBreak (5 minutes remaining), Idle |
| Pomodoro.PomodoroTimer.constructor | src/MappaMentis.Domain/Aggregates/PomodoroTimer.cs:21-38 | the fields equal the Initial timer and the invariant holds |
| Pomodoro.PomodoroTimer.Create | src/MappaMentis.Domain/Aggregates/PomodoroTimer.cs:21-38 | fails exactly as Initial does; on success the new timer's fields are the Initial timer |
| Pomodoro.PomodoroTimer.Start | src/MappaMentis.Domain/Aggregates/PomodoroTimer.cs:43-54 | the new fields and the outcome are those of AfterStart, and the invariant is kept |
| Pomodoro.PomodoroTimer.Pause | src/MappaMentis.Domain/Aggregates/PomodoroTimer.cs:59-67 | the new fields and the outcome are those of AfterPause, and the invariant is kept |
| Pomodoro.PomodoroTimer.Resume | src/MappaMentis.Domain/Aggregates/PomodoroTimer.cs:72-85 | the new fields and the outcome are those of AfterResume, and the invariant is kept |
| Pomodoro.PomodoroTimer.Stop | src/MappaMentis.Domain/Aggregates/PomodoroTimer.cs:90-97 | the new fields are those of AfterStop, and the invariant is kept |
| Pomodoro.PomodoroTimer.CompleteWorkSession | src/MappaMentis.Domain/Aggregates/PomodoroTimer.cs:102-110 | the new fields and the outcome are those of AfterCompleteWorkSession, and the invariant is kept |
| Pomodoro.PomodoroTimer.CompleteBreak | src/MappaMentis.Domain/Aggregates/PomodoroTimer.cs:115-123 | the new fields and the outcome are those of AfterCompleteBreak, and the invariant is kept |
| Pomodoro.PomodoroTimer.UpdateDurations | src/MappaMentis.Domain/Aggregates/PomodoroTimer.cs:128-136 | the new fields and the outcome are those of AfterUpdateDurations, partial update included, and the invariant is kept |
| Pomodoro.PomodoroTimer.ResetSessionCount | src/MappaMentis.Domain/Aggregates/PomodoroTimer.cs:141-145 | the new fields are those of AfterResetSessionCount, and the invariant is kept |
| MindNodes.MindNode.constructor | src/MappaMentis.Domain/Entities/MindNode.cs:21-31 | stores the fields as given, a null color becomes "#FFFFFF", and the node starts without notes |
| MindNodes.MindNode.Create | src/MappaMentis.Domain/Entities/MindNode.cs:21-31 | a null content fails with ArgumentNull; otherwise a fresh node with the given fields, the default color for null, and no notes |
| MindNodes.MindNode.Update | src/MappaMentis.Domain/Entities/MindNode.cs:36-43 | a null content fails with nothing changed; otherwise replaces content and position, a null color becomes "#FFFFFF", and the notes stay |
| MindNodes.MindNode.AddNote | src/MappaMentis.Domain/Entities/MindNode.cs:48-58 | a null note or a duplicate note id fails with nothing changed; otherwise appends the note; note ids stay unique |
| MindNodes.MindNode.RemoveNote | src/MappaMentis.Domain/Entities/MindNode.cs:63-71 | removes only the note with that id, keeping the order of the rest; an absent id changes nothing, UpdatedAt included; note ids stay unique |
| MindNodes.MindNode.ClearNotes | src/MappaMentis.Domain/Entities/MindNode.cs:76-83 | leaves no notes and changes UpdatedAt only if there was a note |
| MindLinks.MindLink.constructor | src/MappaMentis.Domain/Entities/MindLink.cs:18-39 | stores the ids unchanged and maps a null label, line style or color to "", "solid" or "#000000" |
| MindLinks.MindLink.Create | src/MappaMentis.Domain/Entities/MindLink.cs:18-39 | fails with InvalidOperation exactly when source equals target; otherwise a fresh link with source different from target, the ids as given and the defaults applied |
| MindLinks.MindLink.Update | src/MappaMentis.Domain/Entities/MindLink.cs:44-50 | applies the same null defaults to label, line style and color and sets UpdatedAt; ids and endpoints are constants |
| MarkdownNotes.MarkdownNote.constructor | src/MappaMentis.Domain/Entities/MarkdownNote.cs:16-24 | stores id, node id, title and content as given |
| MarkdownNotes.MarkdownNote.Create | src/MappaMentis.Domain/Entities/MarkdownNote.cs:16-24 | a null title fails first and a null content next, both with ArgumentNull; otherwise a fresh note with the given fields |
| MarkdownNotes.MarkdownNote.Update | src/MappaMentis.Domain/Entities/MarkdownNote.cs:29-34 | a null title fails with nothing changed; a null content fails after the title was replaced; success replaces both and sets UpdatedAt |
| Text.LeadingWhiteSpace | src/MappaMentis.Domain/ValueObjects/Title.cs:21 | counts exactly the white space before the first other character |
| Text.TrailingWhiteSpace | src/MappaMentis.Domain/ValueObjects/Title.cs:21 | counts exactly the white space after the last other character |
| Text.Trim | src/MappaMentis.Domain/ValueObjects/Title.cs:21 | the result is a slice of the input with no white space at either end, and is empty exactly when the input is all white space |
| Text.TrimIdempotent | src/MappaMentis.Domain/ValueObjects/Title.cs:21 | trimming a trimmed string changes nothing |
| Text.FoldCaseEquivalence | src/MappaMentis.Domain/Services/MindMapService.cs:123 | two characters compare equal under OrdinalIgnoreCase exactly when they are equal or the lower- and upper-case forms of one ASCII letter |
| Text.FoldCaseIdempotent | src/MappaMentis.Domain/Services/MindMapService.cs:123 | a folded character is never a lower-case ASCII letter and folds to itself |
| Text.FoldStringEquivalence | src/MappaMentis.Domain/Services/MindMapService.cs:123 | two strings fold alike exactly when they have the same length and agree at every position up to the case of ASCII letters |
| Text.FoldStringIdempotent | src/MappaMentis.Domain/Services/MindMapService.cs:123 | folding a folded string changes nothing |
| Text.FoldStringSlice | src/MappaMentis.Domain/Services/MindMapService.cs:123 | folding a string and then slicing it gives the same as slicing and then folding |
| Text.EmptyKeywordContained | src/MappaMentis.Domain/Services/MindMapService.cs:123 | every string contains the empty keyword |
| Text.LiteralOccurrenceContained | src/MappaMentis.Domain/Services/MindMapService.cs:123 | an exact occurrence of the keyword counts as an occurrence ignoring case |
| Text.ContainsRespectsFolding | src/MappaMentis.Domain/Services/MindMapService.cs:123 | keywords that differ only in the case of ASCII letters are contained in the same strings |
| Text.ContainsIgnoresCase | src/MappaMentis.Domain/Services/MindMapService.cs:123 | a keyword is contained exactly when its folded form is, and a string contains a keyword exactly when its folded form does |
| Titles.NewTitle | src/MappaMentis.Domain/ValueObjects/Title.cs:13-22 | succeeds exactly for a non-blank input of at most 500 characters before trimming; the value is the trimmed input, so it is 1 to 500 characters with no white space at either end |
| Titles.Equals | src/MappaMentis.Domain/ValueObjects/Title.cs:29-32 | true exactly for a non-null title with the same value |
| Titles.OpEquality | src/MappaMentis.Domain/ValueObjects/Title.cs:44-47 | true exactly when both sides are null or both carry the same value; with a non-null left side it equals Equals |
| Titles.OpInequality | src/MappaMentis.Domain/ValueObjects/Title.cs:49-52 | the negation of == |
| Titles.AsString | src/MappaMentis.Domain/ValueObjects/Title.cs:54-57 | the implicit conversion returns exactly the stored value, and the constructor accepts that value back as the same title for every well-formed title |
| Titles.EqualsReflexiveSymmetric | src/MappaMentis.Domain/ValueObjects/Title.cs:29-32 | Equals is reflexive and symmetric |
| Titles.TitleRoundTrip | src/MappaMentis.Domain/ValueObjects/Title.cs:54-57 | converting a title to a string and constructing a title from it gives back the same title |
| Titles.LengthCheckedBeforeTrim | src/MappaMentis.Domain/ValueObjects/Title.cs:18-21 | "a" followed by 500 spaces is rejected although it trims to one character |
| NodeIds.NewNodeId | src/MappaMentis.Domain/ValueObjects/NodeId.cs:10-16 | fails with ArgumentException exactly for Guid.Empty; otherwise the value is the argument |
| NodeIds.Create | src/MappaMentis.Domain/ValueObjects/NodeId.cs:20 | behaves exactly as the constructor |
| NodeIds.Equals | src/MappaMentis.Domain/ValueObjects/NodeId.cs:27-30 | true exactly for a non-null id with the same value |
| NodeIds.OpEquality | src/MappaMentis.Domain/ValueObjects/NodeId.cs:42-45 | true exactly when both sides are null or both carry the same value |
| NodeIds.OpInequality | src/MappaMentis.Domain/ValueObjects/NodeId.cs:47-50 | the negation of == |
| NodeIds.NodeIdRoundTrip | src/MappaMentis.Domain/ValueObjects/NodeId.cs:10-20 | every non-empty id is rebuilt by Create from its value |
| MapIds.NewMapId | src/MappaMentis.Domain/ValueObjects/MapId.cs:10-16 | fails with ArgumentException exactly for Guid.Empty; otherwise the value is the argument |
| MapIds.Create | src/MappaMentis.Domain/ValueObjects/MapId.cs:20 | behaves exactly as the constructor |
| MapIds.Equals | src/MappaMentis.Domain/ValueObjects/MapId.cs:27-30 | true exactly for a non-null id with the same value |
| MapIds.OpEquality | src/MappaMentis.Domain/ValueObjects/MapId.cs:42-45 | true exactly when both sides are null or both carry the same value |
| MapIds.OpInequality | src/MappaMentis.Domain/ValueObjects/MapId.cs:47-50 | the negation of == |
| MapIds.MapIdRoundTrip | src/MappaMentis.Domain/ValueObjects/MapId.cs:10-20 | every non-empty id is rebuilt by Create from its value |
| Service.MatchingNodes | src/MappaMentis.Domain/Services/MindMapService.cs:122-124 | holds exactly the nodes whose content contains the keyword up to case, as an order-preserving subsequence of the nodes, each node once when node ids are unique |
| Service.MatchingNodesIgnoresCase | src/MappaMentis.Domain/Services/MindMapService.cs:122-124 | two keywords that differ only in the case of ASCII letters select the same nodes in the same order |
| Service.ChildNodeIds | src/MappaMentis.Domain/Services/MindMapService.cs:138-141 | holds exactly the targets of the links that leave the parent |
| Service.ChildNodes | src/MappaMentis.Domain/Services/MindMapService.cs:138-143 | holds exactly the nodes that are the target of a link from the parent, in node order, each once when node ids are unique |
| Service.SubsequenceOfUniqueNodes | src/MappaMentis.Domain/Services/MindMapService.cs:143 | a selection of nodes from a map with unique node ids has no repeated node |
| Service.MindMapService.constructor | src/MappaMentis.Domain/Services/MindMapService.cs:14-17 | stores the repository as given; when every stored map satisfies its invariant, the service satisfies its own invariant, which every command requires |
| Service.MindMapService.CreateMindMap | src/MappaMentis.Domain/Services/MindMapService.cs:22-46 | a blank title, then a blank root content, fails with ArgumentException and stores nothing; success stores a fresh map under its id, with one root node of that map and no links; the root is at position (0, 0) with color "#FFFFFF" and no notes |
| Service.MindMapService.AddNodeWithLink | src/MappaMentis.Domain/Services/MindMapService.cs:51-81 | fails on a missing map, then blank content, then a missing parent, each with the map unchanged; success adds exactly one node (position (0, 0), color "#FFFFFF", no notes) and one link of that map from the parent to it (the given label or "", line style "solid", color "#000000"), keeping the invariant; a taken link id fails with the node left in place; whenever the node was added UpdatedAt is now; title and description never change |
| Service.MindMapService.RemoveNode | src/MappaMentis.Domain/Services/MindMapService.cs:86-98 | fails exactly when the map is missing; otherwise the map's nodes and links are those MindMap.RemoveNode leaves, UpdatedAt is now only if the node was present, and title and description are unchanged |
| Service.MindMapService.GetMindMap | src/MappaMentis.Domain/Services/MindMapService.cs:103-106 | the stored map, or null when there is none |
| Service.MindMapService.SearchNodesByContent | src/MappaMentis.Domain/Services/MindMapService.cs:111-125 | fails exactly when the map is missing; a blank keyword finds nothing; otherwise the matching nodes; nothing is modified |
| Service.MindMapService.GetChildNodes | src/MappaMentis.Domain/Services/MindMapService.cs:130-144 | fails exactly when the map is missing; otherwise the child nodes of the parent; nothing is modified |
| Service.MindMapService.AddMarkdownNote | src/MappaMentis.Domain/Services/MindMapService.cs:149-170 | fails on a missing map, then a missing node (NotFound), then a null title or content (ArgumentNull), then a duplicate note id (InvalidOperation); success appends one fresh note with the node's id to that node, keeps its content, position and color and sets its UpdatedAt; only the found node may change |

## Left out

- Async execution, `CancellationToken`, `SaveChangesAsync` and the repository's `AddAsync`/`UpdateAsync` are not modelled: the repository is a map held by the service, and storing a map is map update (insert or replace).
- `Service.MindMapService.constructor`: the null check on the repository is left out, because a Dafny map cannot be null. The constructor requires every stored map to satisfy its invariant, which holds for every map the aggregate's own operations build.
- `DateTime.UtcNow` is the caller's `now`, and `CreatedAt` and `UpdatedAt` are given the same value, where the code reads the clock twice. `Guid.NewGuid()` is an id the caller supplies, so `NodeId.New` and `MapId.New` are `Create` applied to that id.
- DateTime arithmetic that leaves DateTime's range (which throws in .NET) is not modelled: ticks are unbounded integers.
- `GetHashCode` and `ToString` of the value objects, and `Equals(object)`, are library hashing, formatting and type tests.
- `Text.FoldCase`: `StringComparison.OrdinalIgnoreCase` folds all of Unicode; the model folds the ASCII letters only.
- String lengths are counted in Unicode scalar values, not UTF-16 code units, so a title with characters outside the Basic Multilingual Plane is measured differently.
- `MindMaps.MindMap.AddNode`, `MindMaps.MindMap.AddLink`: they require the node's (or link's) own invariant, unique note ids or source different from target, which every node and link built through the constructors has; a caller cannot break it in C# either.
- `Titles.AsString`: its round-trip clause speaks of well-formed titles, the only ones the constructor builds; a null `Title` reference given to the implicit conversion throws NullReferenceException in C#; the model's titles are values and cannot be null.
- C# default arguments are not modelled: every caller passes each value, and where the code relies on a default (the root node of `CreateMindMapAsync`, for example) the model passes that default explicitly. The defaults are:
  - `PomodoroTimer(25, 5)` for the work and break minutes;
  - position `0, 0` and colour `"#FFFFFF"` in the `MindNode` constructor;
  - label `""`, line style `"solid"` and colour `"#000000"` in the `MindLink` constructor.
- The domain events, `DomainModule`, and everything in the WPF layer (view models, navigation, splash screen, window) are not part of this model.
- A transition into `TimerState.Completed` does not exist in the code and none is modelled; the state is declared and proved unreachable.
