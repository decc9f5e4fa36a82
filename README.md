# JBGLangImprover in Dafny

JBGLangImprover takes a Word (or PDF) document and a list of suggested text
corrections and produces a marked-up document. This project models the
deterministic core of that pipeline as Dafny values, classes and loops, and
proves what each stage promises.

- **Colour-markup editors.** There are two. `MarkupEditor` models
  app/src/JBGDocumentEditor.py. `LegacyEditor` models the older
  JBGDocumentEditor.py. `WordDoc` holds what both share: paragraphs, runs,
  the change records, the nearby-paragraph suggestions and the fill of empty
  paragraphs.
  - The newer editor rebuilds each paragraph as plain, struck and inserted
    segments.
  - The older one splits run by run.
  - For both, the model proves the round trip: plain and struck text read
    back as the original paragraph, and plain and inserted text read as the
    literal replacement.
- **Native revision converter** (app/src/JBGSuperDocumentEditor.py).
  - `RunConversion` turns red struck and green runs into `w:del` and `w:ins`
    wrappers. The wrappers carry consecutive ids and are never nested.
  - `ParagraphStamps` gives every paragraph session ids (rsids) drawn from
    the pool.
  - `TreeClean` removes proofing marks and empty run properties.
  - `PackagePatches` holds the infrastructure passes: styles, settings,
    paragraph styles, the rsid pool and its injection, the theme
    relationship and the restored parts. The styles patch, the settings
    fix and the paragraph-style pass are proved idempotent. The theme step
    is not: the check in the same call does not see the relationship it
    has just appended.
  - `TrackedConversion` chains these steps into the converter.
- **Direct tracked-change inserters.** `TrackedInserter` models
  app/src/JBGTrackedChangesInserter.py and `ActivatorInserter` models
  app/src/JBGTrackChangesActivatorInserter.py. Each is a class over the
  package, with turning on tracking, a phrase replacement and `save`.
- **Package checks.** `InternalValidator` models the validator object and
  its error list, which is never cleared. `QualityChecker` models the
  style, tracking and sparse-rsid report.
- **Structural index.** `StructureIndex` models the element list, the
  element ids, the textbox and footnote collectors, the element map and the
  PDF line numbering of app/src/JBGDocumentStructureExtractor.py.
  `LegacyStructure` models the older extractor and its choice by file
  extension.
- **Batching and fences.** `Batching` models the greedy, token-aware
  chunker of the suggestion service and the gathering of its answers.
  `Fences` models the code-fence stripper of both suggestor files, which
  are the same function.
- **Shared modules.** `Text` holds the Python string operations the source
  relies on. `Xml` holds the element tree and the package, a map from part
  name to part. `Wrappers` holds `Option` and `Result`.

Randomness and the clock become parameters: the rsid values, the choices,
`randint`, uuids and timestamps. The network does too: a service reply is a
given value per request.

## Model

| member | source | states |
|---|---|---|
| MarkupEditor.ApplyChange | app/src/JBGDocumentEditor.py:74-95 | struck and inserted segments left by earlier changes survive a later change |
| MarkupEditor.EmitPieces | app/src/JBGDocumentEditor.py:87-93 | the piece loop emits each non-empty piece of the split, with a struck old / inserted new pair between neighbours and none after the last |
| MarkupEditor.RebuildSegments | app/src/JBGDocumentEditor.py:74-95 | the segment loop builds `rebuilt` for one change as the per-segment step prescribes |
| MarkupEditor.ApplyChangeViews | app/src/JBGDocumentEditor.py:74-95 | after any change, plain and struck text still spell the paragraph before it, and plain and inserted text show every literal occurrence of the old phrase replaced in each plain segment the normalised guard let through |
| MarkupEditor.SingleChangeIsReplace | app/src/JBGDocumentEditor.py:67-95 | a paragraph hit by one change reads as before in the original view and as the literal replacement in the updated view; a paragraph not hit reads as before in both |
| MarkupEditor.RebuildParagraph | app/src/JBGDocumentEditor.py:67-98 | the change loop yields the rebuilt segments (or the KeyError of a change without "old" or "new") and records `(idx, old)` for every applicable change |
| MarkupEditor.RebuildStopsAtError | app/src/JBGDocumentEditor.py:70-71 | once a change raises, the later changes do not alter the outcome |
| MarkupEditor.RebuildKeepsOriginal | app/src/JBGDocumentEditor.py:67-98 | whatever the changes, the plain and struck text of the rebuilt paragraph is its text before the edits |
| MarkupEditor.Styled | app/src/JBGDocumentEditor.py:104-111 | one run per segment, in order, with the segment's text and the formatting of its kind |
| MarkupEditor.StyleRuns | app/src/JBGDocumentEditor.py:100-111 | the paragraph's runs are all removed and replaced by exactly the styled runs |
| MarkupEditor.StyledShowsViews | app/src/JBGDocumentEditor.py:104-111 | the styled runs without the green ones read as the original view, without the red ones as the updated view |
| MarkupEditor.FillLastWins | app/src/JBGDocumentEditor.py:145-155 | no fill value exactly when no change fills the paragraph; otherwise the value is the "new" text of the last filling change |
| MarkupEditor.FillEmpty | app/src/JBGDocumentEditor.py:139-155 | every whitespace-only paragraph takes its fill value and every other paragraph is left as it was |
| MarkupEditor.FillOne | app/src/JBGDocumentEditor.py:145-155 | the change loop for one blank paragraph sets it to each filling change in turn, so the last one wins |
| MarkupEditor.ApplicableSpec | app/src/JBGDocumentEditor.py:63 | the comprehension raises exactly when some entry is not an object; otherwise it holds exactly the changes naming the paragraph |
| MarkupEditor.ApplicableChanges | app/src/JBGDocumentEditor.py:63 | the comprehension, computed by a loop, agrees with its specification |
| MarkupEditor.ApplicableStopsAtError | app/src/JBGDocumentEditor.py:63 | an entry that raises decides the outcome whatever follows it |
| MarkupEditor.KeysOfHas | app/src/JBGDocumentEditor.py:98 | every applicable change with an "old" key has `(idx, old)` recorded |
| MarkupEditor.ReportUnmatched | app/src/JBGDocumentEditor.py:115-118 | the final loop gives the "No match" notices of the changes whose key was not recorded, or raises |
| MarkupEditor.NoMatchStopsAtError | app/src/JBGDocumentEditor.py:115-118 | once the final loop raises, later changes do not alter the outcome |
| MarkupEditor.EditParagraph | app/src/JBGDocumentEditor.py:58-111 | one iteration of the paragraph loop: untouched without applicable changes, otherwise rebuilt and restyled, with the keys it records |
| MarkupEditor.EditParagraphs | app/src/JBGDocumentEditor.py:56-111 | the paragraph loop edits every paragraph in order and collects the recorded keys, or raises |
| MarkupEditor.EditDocx | app/src/JBGDocumentEditor.py:51-120 | `_edit_docx`: fill, edit, then the nearby suggestions and the "No match" notices, or the exception raised |
| MarkupEditor.EditParasStopsAtError | app/src/JBGDocumentEditor.py:58-111 | once a paragraph raises, later paragraphs do not alter the outcome |
| MarkupEditor.EditOneRecords | app/src/JBGDocumentEditor.py:63-98 | every change object naming the paragraph with an "old" key is recorded, whether or not its phrase was found |
| MarkupEditor.EditParasRecords | app/src/JBGDocumentEditor.py:56-98 | after k paragraphs, k paragraphs are produced and every change naming one of them is recorded |
| MarkupEditor.NoMatchNames | app/src/JBGDocumentEditor.py:115-118 | every notice of the final loop is a "No match" for a change in the list whose key was not recorded |
| MarkupEditor.SuggestOnlyNearby | app/src/JBGDocumentEditor.py:122-137 | the nearby-paragraph pass only ever emits range warnings and suggestions, never a "No match" |
| MarkupEditor.NoMatchOnlyUnvisited | app/src/JBGDocumentEditor.py:56-118 | a "No match" notice only ever names a number, and one outside the document |
| MarkupEditor.NoMatchOutside | app/src/JBGDocumentEditor.py:115-118 | after a suggestion pass that did not raise, every "No match" notice names a number outside the paragraphs whose keys were recorded |
| MarkupEditor.TypeClashRaises | app/src/JBGDocumentEditor.py:51-137 | an entry that clashes in type makes the edit raise on every document |
| MarkupEditor.NoMatchRaisesWithoutParagraph | app/src/JBGDocumentEditor.py:115-118 | a change object without "paragraph" is never recorded, so the final loop raises |
| MarkupEditor.EditedParagraphKeepsOriginal | app/src/JBGDocumentEditor.py:58-111 | a rebuilt paragraph read without its green runs is its text before the edits; any other paragraph is unchanged |
| MarkupEditor.FillsEmptyParagraph | app/src/JBGDocumentEditor.py:139-155 | a change with empty "old" and "new" `Hi` fills an empty first paragraph with `Hi` |
| MarkupEditor.EmptyPhraseHits | app/src/JBGDocumentEditor.py:72-82 | the empty old phrase passes the guard of every segment |
| MarkupEditor.EmptyOldSplitsFill | app/src/JBGDocumentEditor.py:82-93 | the fill change applied to its own filled paragraph `Hi` gives the updated view `HiHHiiHi` |
| MarkupEditor.FillEditedOnce | app/src/JBGDocumentEditor.py:54-98 | after the fill, the paragraph loop rebuilds the filled paragraph with the fill change and records `(1, "")` |
| MarkupEditor.EmptyOldRepeatsFill | app/src/JBGDocumentEditor.py:51-111 | as written: an empty paragraph filled with `Hi` ends up reading `Hi` without green runs and `HiHHiiHi` without red ones |
| MarkupEditor.SkippingEmptyKeepsFill | app/src/JBGDocumentEditor.py:70-95 | corrected: skipping changes with an empty old phrase keeps the round trip, and a paragraph whose only changes are fills reads as its text in both views |
| WordDoc.SetText | app/src/JBGDocumentEditor.py:154 | after `para.text = s` the paragraph reads exactly `s` |
| WordDoc.NearbyFrom | app/src/JBGDocumentEditor.py:132-137 | a suggested neighbour is an existing paragraph, at one of the tried offsets, whose text contains the phrase |
| WordDoc.FindNearby | app/src/JBGDocumentEditor.py:132-137 | the offset loop with its `break` finds the neighbour its specification names |
| WordDoc.NearbyIsFirstInOrder | app/src/JBGDocumentEditor.py:132-137 | no neighbour is suggested iff no offset among -2, -1, +1, +2 lands on a paragraph containing the phrase, and the first offset that does decides the suggestion |
| WordDoc.NoticeFor | app/src/JBGDocumentEditor.py:126-137 | one change gives a range warning when its paragraph does not exist, nothing when the paragraph holds the phrase, and otherwise the first neighbour found |
| WordDoc.SuggestNearby | app/src/JBGDocumentEditor.py:122-137 | the loop over the changes gives the range warnings and suggestions of its specification, or the TypeError or KeyError it raises |
| WordDoc.SuggestSpecAppend | app/src/JBGDocumentEditor.py:124-137 | one more entry extends the pass by exactly that entry's own outcome: the pass raises where the entry raises, and otherwise gains the entry's notices |
| WordDoc.SuggestOneMeaning | app/src/JBGDocumentEditor.py:124-128 | one entry raises TypeError exactly when it is a number, boolean or null, a string or array holding "paragraph", or an object whose "paragraph" is not a number; KeyError exactly when it names a paragraph in range without "old"; an object without "paragraph" adds nothing, and only a numbered change adds a notice |
| WordDoc.SuggestSpecTyped | app/src/JBGDocumentEditor.py:122-128 | a pass that does not raise has met no entry that clashes in type and no "paragraph" that is not a number |
| WordDoc.SuggestSpecStopsAtError | app/src/JBGDocumentEditor.py:124-137 | once the pass raises, later changes do not alter the outcome |
| LegacyEditor.LegacyFillOne | JBGDocumentEditor.py:112-119 | for one blank paragraph: raises when some entry is not an object, otherwise the last filling change wins |
| LegacyEditor.LegacyFillEmpty | JBGDocumentEditor.py:106-119 | the fill pass over all paragraphs, raising on a non-object entry only once a whitespace-only paragraph is visited |
| LegacyEditor.MatchRunIsFirst | JBGDocumentEditor.py:56-76 | the change applied to a run is the first naming the paragraph whose old phrase occurs in the run's text; no change is applied and nothing raises exactly when no entry clashes in type and every change naming the paragraph has both keys and an old phrase absent from the run's text |
| LegacyEditor.MatchRunTypeError | JBGDocumentEditor.py:56-58 | the test raises TypeError on a number, boolean or null entry, or a string or array holding "paragraph", when no change naming the paragraph comes before it; it raises TypeError only because of such an entry |
| LegacyEditor.FindChange | JBGDocumentEditor.py:56-76 | the change loop with its `break` picks the change its specification names, or raises the TypeError, KeyError or ValueError it names |
| LegacyEditor.SplitRunViews | JBGDocumentEditor.py:63-75 | a split run read without its green runs is the run's text, and read without its red runs is the text with every occurrence replaced |
| LegacyEditor.SplitRunPieces | JBGDocumentEditor.py:63-75 | the piece loop emits the non-empty pieces with a red old run and a green new run between neighbours |
| LegacyEditor.ExpandedStopsAtError | JBGDocumentEditor.py:54-78 | once a run raises, later runs do not alter the outcome |
| LegacyEditor.EditRuns | JBGDocumentEditor.py:53-84 | the paragraph's runs become `new_runs`, each matched run expanded in place, and the paragraph is left alone when `new_runs` is empty |
| LegacyEditor.SpanningPhraseNeverMatched | JBGDocumentEditor.py:54-78 | when no entry clashes in type and no single run contains a phrase, the paragraph is unchanged, whatever its whole text contains |
| LegacyEditor.OtherParagraphsUntouched | JBGDocumentEditor.py:57-58 | entries that do not clash in type and name another paragraph, or none, never touch a run |
| LegacyEditor.ExpandRunViews | JBGDocumentEditor.py:60-78 | a matched run reads as before without green runs and with the phrase replaced without red runs |
| LegacyEditor.LegacyEditParasStopsAtError | JBGDocumentEditor.py:51-84 | once a paragraph raises, later paragraphs do not alter the outcome |
| LegacyEditor.LegacyEditParagraphs | JBGDocumentEditor.py:51-84 | the paragraph loop edits every paragraph in order, or raises |
| LegacyEditor.LegacyEditDocx | JBGDocumentEditor.py:45-104 | `_edit_docx` of the older editor: fill, edit run by run, then the nearby suggestions, or the exception raised |
| LegacyEditor.LegacyTypeClashRaises | JBGDocumentEditor.py:45-104 | an entry that clashes in type makes the older editor raise on every document |
| RunConversion.Choice | app/src/JBGSuperDocumentEditor.py:239-240 | the session id picked for a wrapper is always one of the available ids |
| RunConversion.Painted | app/src/JBGSuperDocumentEditor.py:195-208 | a run counts as painted only when it has run properties |
| RunConversion.MarkOf | app/src/JBGSuperDocumentEditor.py:195-216 | a run is converted only when it has run properties and a text child |
| RunConversion.MarkOfMeaning | app/src/JBGSuperDocumentEditor.py:199-216 | a run is a deletion exactly when it has a text child and red colour with a strike, and an insertion exactly when it has a text child and green colour and is not a red strike |
| RunConversion.Padded | app/src/JBGSuperDocumentEditor.py:220-222 | a non-empty text not ending in one of the listed terminators gets one space appended; any other text is kept |
| RunConversion.PaddedIdempotent | app/src/JBGSuperDocumentEditor.py:220-222 | padding twice is padding once, and a padded non-empty text ends in a terminator |
| RunConversion.ConvertOne | app/src/JBGSuperDocumentEditor.py:194-251 | converting a subtree never moves the id counter backwards |
| RunConversion.ConvertKids | app/src/JBGSuperDocumentEditor.py:194-251 | converting a child list never moves the id counter backwards |
| RunConversion.ConvertRuns | app/src/JBGSuperDocumentEditor.py:164-251 | the run loop fails exactly when the root itself is a painted run (it has no parent); otherwise the root keeps its tag and the counter ends one past the number of converted runs |
| RunConversion.ConvertOneConsume | app/src/JBGSuperDocumentEditor.py:236-242 | each converted run uses up exactly one id |
| RunConversion.ConvertKidsConsume | app/src/JBGSuperDocumentEditor.py:236-242 | a child list uses up exactly as many ids as it holds runs to convert |
| RunConversion.TrackedKidsAppend | app/src/JBGSuperDocumentEditor.py:194-251 | the tracked changes of a child list are those of its parts, in order |
| RunConversion.TrackedKidsEmpty | app/src/JBGSuperDocumentEditor.py:194-251 | a child list has no tracked change exactly when none of its children has one |
| RunConversion.WrapperViews | app/src/JBGSuperDocumentEditor.py:218-241 | a red struck run becomes a `w:del` whose deleted text is the padded run text and that inserts nothing; a green run becomes a `w:ins` whose inserted text is the padded run text and that deletes nothing; the wrapper has the id and session ids from the pool |
| RunConversion.WrapperIsAlone | app/src/JBGSuperDocumentEditor.py:223-244 | a wrapper holds no tracked change below it and carries its own id |
| RunConversion.ConvertedRunIds | app/src/JBGSuperDocumentEditor.py:223-251 | a converted run with its comment-reference run adds exactly its wrapper, with its id |
| RunConversion.CommentRunUntracked | app/src/JBGSuperDocumentEditor.py:248-251 | the comment-reference run adds no tracked change |
| RunConversion.UntrackedLeafRun | app/src/JBGSuperDocumentEditor.py:249-250 | a run around a copied comment reference holds no tracked change |
| RunConversion.NumberedConcat | app/src/JBGSuperDocumentEditor.py:236-242 | consecutive id ranges join into one consecutive range |
| RunConversion.ConvertOneIds | app/src/JBGSuperDocumentEditor.py:194-251 | in a tree without tracked changes and without nested runs to convert, the wrappers are numbered consecutively from the starting id, in document order |
| RunConversion.ConvertedNumbered | app/src/JBGSuperDocumentEditor.py:223-251 | a converted run is numbered with the starting id |
| RunConversion.ConvertOneOfRun | app/src/JBGSuperDocumentEditor.py:223-251 | a convertible run becomes its wrapper followed by the optional comment-reference run, using one id |
| RunConversion.NumberedOne | app/src/JBGSuperDocumentEditor.py:236-244 | a single wrapper is numbered with its own id |
| RunConversion.UpdatedKidsTracked | app/src/JBGSuperDocumentEditor.py:194-251 | an element that is not a wrapper adds no tracked change of its own |
| RunConversion.ConvertKidsIds | app/src/JBGSuperDocumentEditor.py:194-251 | a child list without tracked changes and nested runs to convert gets consecutive ids from the starting one |
| RunConversion.NothingMarkedIsIdentity | app/src/JBGSuperDocumentEditor.py:194-208 | a tree without runs to convert is left as it was and uses no id |
| RunConversion.NothingMarkedKidsIsIdentity | app/src/JBGSuperDocumentEditor.py:194-208 | a child list without runs to convert is left as it was and uses no id |
| ParagraphStamps.CursorAt | app/src/JBGSuperDocumentEditor.py:254-267 | the paragraph counter never exceeds three and no more draws are made than paragraphs seen |
| ParagraphStamps.SessionOf | app/src/JBGSuperDocumentEditor.py:254-266 | each paragraph's session id is one of the available ids |
| ParagraphStamps.ScheduleSessions | app/src/JBGSuperDocumentEditor.py:254-267 | the counter loop gives every paragraph, in order, the session id its schedule names |
| ParagraphStamps.DrawMonotone | app/src/JBGSuperDocumentEditor.py:264-267 | over m paragraphs the number of draws grows by at most m and never shrinks |
| ParagraphStamps.SameSessionCounts | app/src/JBGSuperDocumentEditor.py:264-267 | while no new id is drawn, the counter rises by one per paragraph |
| ParagraphStamps.SessionAtMostFour | app/src/JBGSuperDocumentEditor.py:264-267 | a new session id is drawn at least every four paragraphs |
| ParagraphStamps.SessionAtLeastTwo | app/src/JBGSuperDocumentEditor.py:264-267 | a session never ends after its first paragraph: every draw comes at least two paragraphs after the previous one |
| ParagraphStamps.StampAttrs | app/src/JBGSuperDocumentEditor.py:257-262 | a stamped paragraph carries its two hex ids and the session id in all three rsid attributes, and every other attribute is kept |
| ParagraphStamps.StampNode | app/src/JBGSuperDocumentEditor.py:256-262 | stamping keeps each element's tag and text |
| ParagraphStamps.StampKids | app/src/JBGSuperDocumentEditor.py:256-262 | stamping keeps the number of children |
| ParagraphStamps.StampedConcat | app/src/JBGSuperDocumentEditor.py:256-262 | stamp ranges of consecutive paragraph lists join |
| ParagraphStamps.StampNodeInOrder | app/src/JBGSuperDocumentEditor.py:256-262 | the k-th paragraph of the tree, in document order, gets the k-th stamp and keeps everything else |
| ParagraphStamps.StampKidsInOrder | app/src/JBGSuperDocumentEditor.py:256-262 | the same for a child list |
| ParagraphStamps.StampNodeStampsAll | app/src/JBGSuperDocumentEditor.py:256-262 | after the pass every paragraph carries a session id from the pool |
| ParagraphStamps.StampKidsStampAll | app/src/JBGSuperDocumentEditor.py:256-262 | the same for a child list |
| TreeClean.Prune | app/src/JBGSuperDocumentEditor.py:297-308 | removal keeps each surviving element's tag, attributes and text |
| TreeClean.PruneKids | app/src/JBGSuperDocumentEditor.py:297-308 | removal never adds children |
| TreeClean.PruneKidsKeepsAll | app/src/JBGSuperDocumentEditor.py:297-308 | children that are not removed are all kept |
| TreeClean.PruneSettles | app/src/JBGSuperDocumentEditor.py:297-308 | after a pass no element the pass removes is left (for the empty run-property pass, when no run properties nest) |
| TreeClean.PruneKidsSettle | app/src/JBGSuperDocumentEditor.py:297-308 | the same for a child list |
| TreeClean.PruneKeepsSpared | app/src/JBGSuperDocumentEditor.py:297-308 | a later pass does not bring back elements an earlier pass removed |
| TreeClean.PruneKidsKeepSpared | app/src/JBGSuperDocumentEditor.py:297-308 | the same for a child list |
| TreeClean.PruneIdentity | app/src/JBGSuperDocumentEditor.py:297-308 | a tree with nothing to remove is left as it was |
| TreeClean.PruneKidsIdentity | app/src/JBGSuperDocumentEditor.py:297-308 | the same for a child list |
| TreeClean.PruneKeepsFlat | app/src/JBGSuperDocumentEditor.py:303-308 | removal keeps run properties unnested |
| TreeClean.PruneKidsKeepFlat | app/src/JBGSuperDocumentEditor.py:303-308 | the same for a child list |
| TreeClean.CleanSettles | app/src/JBGSuperDocumentEditor.py:287-311 | the cleaned tree has no `w:proofErr` or `w:noProof`, and, when run properties do not nest, no empty `w:rPr` |
| TreeClean.PruneTagIdempotent | app/src/JBGSuperDocumentEditor.py:297-301 | removing a tag twice is removing it once |
| PackagePatches.PatchStyles | app/src/JBGSuperDocumentEditor.py:353-415 | the styles patch keeps every existing child, appends the missing required styles, counts them, and writes the part exactly when it added one or the part was absent |
| PackagePatches.AppendMissingStyles | app/src/JBGSuperDocumentEditor.py:387-409 | the style loop appends, after the existing children, exactly the required styles whose ids are not yet defined |
| PackagePatches.PatchStylesAt | app/src/JBGSuperDocumentEditor.py:353-415 | the patch touches only the styles part, and leaves it present |
| PackagePatches.MissingStylesShape | app/src/JBGSuperDocumentEditor.py:378-409 | the appended elements are styles whose ids are the required ids not yet defined |
| PackagePatches.RequiredIdsAreListed | app/src/JBGSuperDocumentEditor.py:378-385 | the six listed style definitions define exactly the required ids |
| PackagePatches.PatchIdsBelow | app/src/JBGSuperDocumentEditor.py:375-409 | after the patch the style ids defined are the earlier ones plus the missing required ones |
| PackagePatches.PatchAddsExactlyMissing | app/src/JBGSuperDocumentEditor.py:375-409 | the patch keeps the old children, defines every required id afterwards, and adds exactly the ids that were missing |
| PackagePatches.PatchIsIdempotent | app/src/JBGSuperDocumentEditor.py:353-415 | patching a patched styles part changes nothing |
| PackagePatches.PatchOfIdempotent | app/src/JBGSuperDocumentEditor.py:375-409 | appending the missing styles twice is appending them once |
| PackagePatches.NothingMissing | app/src/JBGSuperDocumentEditor.py:388-389 | when every required id is defined, nothing is appended |
| PackagePatches.IncompleteMeansPatched | app/src/JBGSuperDocumentEditor.py:339-415 | a styles part judged incomplete gains styles (or is created), and after the patch it is never judged incomplete |
| PackagePatches.IncompleteRootPatched | app/src/JBGSuperDocumentEditor.py:345-409 | a root missing a required style gains children, and after the patch none is missing |
| PackagePatches.BareStylesGrow | app/src/JBGSuperDocumentEditor.py:361-409 | a bare root created for a missing or broken part always gets styles |
| PackagePatches.FixSettings | app/src/JBGSuperDocumentEditor.py:502-542 | the settings fix raises on a part that does not parse, and otherwise appends each of trackRevisions, rsids, compat and updateFields that is missing |
| PackagePatches.EnsuredOnlyAppends | app/src/JBGSuperDocumentEditor.py:519-537 | the fix keeps the root and its existing children, and appends only listed elements whose tag was absent |
| PackagePatches.EnsuredHasAll | app/src/JBGSuperDocumentEditor.py:519-537 | after the fix every listed element's tag is present |
| PackagePatches.EnsuredNoop | app/src/JBGSuperDocumentEditor.py:519-537 | a settings root that already has them all is left as it was |
| PackagePatches.SettingsFixIdempotent | app/src/JBGSuperDocumentEditor.py:519-537 | fixing twice is fixing once |
| PackagePatches.SettingsFixComplete | app/src/JBGSuperDocumentEditor.py:519-537 | the fixed settings have trackRevisions, rsids, compat and updateFields |
| PackagePatches.FixSettingsAt | app/src/JBGSuperDocumentEditor.py:502-542 | on a package the fix fails exactly when the part is broken, and touches only the settings part |
| PackagePatches.WithPStyle | app/src/JBGSuperDocumentEditor.py:563-575 | a body paragraph gets a paragraph style: one without `w:pStyle` gets `Normal` first in its `w:pPr` (created first when missing), and one that has a style is unchanged |
| PackagePatches.FirstIndexAfterUpdate | app/src/JBGSuperDocumentEditor.py:564-567 | replacing the first `w:pPr` in place keeps it the first one |
| PackagePatches.StyleBodiesKids | app/src/JBGSuperDocumentEditor.py:563-575 | styling the body keeps the number of children |
| PackagePatches.StyleBodiesStyles | app/src/JBGSuperDocumentEditor.py:563-575 | after the pass every body paragraph has a paragraph style, and element tags are kept |
| PackagePatches.StyleBodiesKidsStyles | app/src/JBGSuperDocumentEditor.py:563-575 | the same for a child list |
| PackagePatches.WithPStyleKeepsStyled | app/src/JBGSuperDocumentEditor.py:563-575 | styling a paragraph keeps its already styled parts styled |
| PackagePatches.StyledIsFixed | app/src/JBGSuperDocumentEditor.py:569-575 | a tree whose body paragraphs all have styles is left as it was |
| PackagePatches.StyledKidsFixed | app/src/JBGSuperDocumentEditor.py:569-575 | the same for a child list |
| PackagePatches.StyleBodiesIdempotent | app/src/JBGSuperDocumentEditor.py:545-581 | running the pass twice is running it once |
| PackagePatches.EstimateRsidCount | app/src/JBGSuperDocumentEditor.py:659-699 | the estimate is 50, 100 or 200: 50 below 20 paragraphs, 200 from 100 paragraphs, and 50 when the document part is missing or broken |
| PackagePatches.BucketMonotone | app/src/JBGSuperDocumentEditor.py:688-693 | more paragraphs never give a smaller estimate |
| PackagePatches.Without | app/src/JBGSuperDocumentEditor.py:637-639 | removing the old rsids blocks keeps exactly the other children |
| PackagePatches.DropRsids | app/src/JBGSuperDocumentEditor.py:637-639 | the removal loop computes that list |
| PackagePatches.RsidBlock | app/src/JBGSuperDocumentEditor.py:644-648 | the new block holds the rsidRoot (the first id) followed by one rsid per id, in order |
| PackagePatches.InjectRsids | app/src/JBGSuperDocumentEditor.py:619-657 | injection raises exactly on a broken settings part or an empty pool (the index of the first id); otherwise the new block comes first, followed by the old children without any rsids block |
| PackagePatches.EstimatedPoolNeverEmpty | app/src/JBGSuperDocumentEditor.py:641-648 | a pool of the estimated size is never empty, so the first-id lookup does not raise |
| PackagePatches.EnsureTheme | app/src/JBGSuperDocumentEditor.py:317-336 | the theme step fails exactly on a broken relationships part, touches nothing else, and appends the theme relationship only when none is present |
| PackagePatches.ThemeCheckIgnoresItsOwnAddition | app/src/JBGSuperDocumentEditor.py:326-334 | after the theme relationship is appended the check still finds none, because it looks only for namespaced relationships, so the check in the same call finds none |
| PackagePatches.MergedStopsAtError | app/src/JBGSuperDocumentEditor.py:715-743 | once a part raises, later parts do not alter the outcome |
| PackagePatches.MergeMissingParts | app/src/JBGSuperDocumentEditor.py:701-752 | the merge loop computes its specification |
| PackagePatches.MergeOneFrame | app/src/JBGSuperDocumentEditor.py:715-743 | one required part is present afterwards when either copy had it, and no other part changes |
| PackagePatches.MergedFrame | app/src/JBGSuperDocumentEditor.py:715-743 | the same for the list of required parts |
| PackagePatches.MergeRecovers | app/src/JBGSuperDocumentEditor.py:701-752 | every required part either copy had is present, every customXml part of the original is copied over, and nothing else changes |
| TrackedConversion.StampsFor | app/src/JBGSuperDocumentEditor.py:254-267 | there is one stamp per paragraph, each with a session id from the pool |
| TrackedConversion.ConvertDocument | app/src/JBGSuperDocumentEditor.py:189-274 | the document pass raises exactly when the root is a painted run; otherwise every paragraph carries a session id from the pool and no `w:proofErr` or `w:noProof` is left |
| TrackedConversion.CleanKeepsStamped | app/src/JBGSuperDocumentEditor.py:287-311 | cleaning keeps every paragraph's stamp |
| TrackedConversion.PruneKeepsStamped | app/src/JBGSuperDocumentEditor.py:297-308 | one removal pass keeps every paragraph's stamp |
| TrackedConversion.BlockDeclaresPool | app/src/JBGSuperDocumentEditor.py:644-650 | the injected block declares exactly the pool |
| TrackedConversion.InjectionKeepsTracking | app/src/JBGSuperDocumentEditor.py:637-650 | the rsid injection keeps the trackRevisions the settings fix added |
| TrackedConversion.KeptChild | app/src/JBGSuperDocumentEditor.py:637-650 | the injection keeps every settings child other than the old rsids |
| TrackedConversion.RestoreParts | app/src/JBGSuperDocumentEditor.py:701-752 | the merge changes no part other than the required ones |
| TrackedConversion.RepairStyles | app/src/JBGSuperDocumentEditor.py:353-415 | after the styles patch the styles part is present and complete, and nothing else changes |
| TrackedConversion.RepairSettings | app/src/JBGSuperDocumentEditor.py:502-542 | the settings fix fails exactly on a broken part; otherwise the part tracks revisions and nothing else changes |
| TrackedConversion.DeclareSessions | app/src/JBGSuperDocumentEditor.py:619-699 | fails exactly on a broken settings part; otherwise the pool has the estimated size, the settings declare exactly that pool, keep tracking revisions if they did, and no other part changes |
| TrackedConversion.ConvertMarkupToTracked | app/src/JBGSuperDocumentEditor.py:155-285 | on success the styles part is complete, the settings track revisions and declare at least 50 session ids, every paragraph carries one of them, no `w:proofErr`/`w:noProof` is left, the written document is the run, stamp and clean conversion of the input document with its body paragraphs styled, over the declared pool whose size is estimated from that document, and only the required parts and the document part may differ from the input |
| TrackedConversion.DocumentThrough | app/src/JBGSuperDocumentEditor.py:155-250 | the document the run loop reads is the input's document with its body paragraphs styled; the steps before it change nothing else in it |
| TrackedConversion.BodiesAgree | app/src/JBGSuperDocumentEditor.py:545-581 | the body styling step changes only the document part |
| TrackedConversion.RestoredFrame | app/src/JBGSuperDocumentEditor.py:155-285 | the steps together change only the required parts and the document part |
| TrackedConversion.StylesUnwritten | app/src/JBGSuperDocumentEditor.py:411-415 | when the patch does not write the part, the part was present and is exactly the patched root, so skipping the write loses nothing |
| InternalValidator.Translate | app/src/JBGDocxInternalValidator.py:119 | a Swedish style id is replaced by its English name; any other id, or a missing one, is kept |
| InternalValidator.RefIds | app/src/JBGDocxInternalValidator.py:153-155 | one id is read per `w:commentReference` found |
| InternalValidator.Then | app/src/JBGDocxInternalValidator.py:171-177 | the checks run in sequence raise when either one raises |
| InternalValidator.UnlinkedIff | app/src/JBGDocxInternalValidator.py:104-106 | a relationship problem is reported for a target iff it is required and no declared target contains it; nothing is reported iff every required target is linked |
| InternalValidator.RelsReports | app/src/JBGDocxInternalValidator.py:91-106 | without a relationships part there is exactly one error and no raise; a malformed part raises; with one, the declared targets are read from every element below the root, in any namespace; the check raises iff one of them lacks a target and some required target is unlinked, reports nothing when it raises, and otherwise reports each required target iff no declared target contains it |
| InternalValidator.RaiseAt | app/src/JBGDocxInternalValidator.py:104-105 | when an element below the root has no target, the first unlinked required target raises and nothing has been reported before it |
| InternalValidator.UntargetedRelationshipRaises | app/src/JBGDocxInternalValidator.py:98-105 | relationships linking "styles.xml" plus one without a target make the check raise with nothing reported |
| InternalValidator.ForeignElementLinks | app/src/JBGDocxInternalValidator.py:98-105 | an unqualified `Relationship` element, outside the relationships namespace, declares its target like any other, so its "styles.xml" links the styles part |
| InternalValidator.UndefinedIff | app/src/JBGDocxInternalValidator.py:121-123 | a style problem is reported iff the style is required and no translated id equals it |
| InternalValidator.TranslatedStyleCounts | app/src/JBGDocxInternalValidator.py:118-123 | corrected reader: a styles part with a style whose namespaced `styleId` is `Standard` is not reported as missing `Normal` |
| InternalValidator.LiteralKeysMissEveryStyle | app/src/JBGDocxInternalValidator.py:118-123 | as written: for any styles part that parses, a style is reported missing exactly when it is required |
| InternalValidator.SettingsReports | app/src/JBGDocxInternalValidator.py:125-136 | the settings check reports at most one problem, and a missing `trackRevisions` exactly when the part is present without that direct child |
| InternalValidator.DanglingIff | app/src/JBGDocxInternalValidator.py:154-157 | a reference id is reported iff some reference has it and no comment does; every report names a reference, and there are no more reports than references |
| InternalValidator.CommentsReports | app/src/JBGDocxInternalValidator.py:138-157 | without a comments part nothing is checked or reported; when every reference resolves nothing is reported |
| InternalValidator.LiteralKeysHideDangling | app/src/JBGDocxInternalValidator.py:145-157 | as written: once the comments part holds a comment, no reference is reported, whatever the ids |
| InternalValidator.ClarkKeysReportDangling | app/src/JBGDocxInternalValidator.py:145-157 | corrected reader: a reference whose id no comment carries is reported |
| InternalValidator.UnparsableIff | app/src/JBGDocxInternalValidator.py:159-167 | a part is reported broken iff it is an entry whose name ends in `.xml` and that does not parse; `.rels` entries are never reported |
| InternalValidator.ValidateRaises | app/src/JBGDocxInternalValidator.py:97-179 | validation raises iff the relationships, styles, settings or comments part is malformed, or the document part is malformed while there are comments, or an element without a target, in any namespace, sits below the relationships root while a required target is unlinked |
| InternalValidator.Validator.ValidateRelationships | app/src/JBGDocxInternalValidator.py:91-106 | appends exactly the relationship problems to the error list and raises exactly when the check does, including the missing-target TypeError |
| InternalValidator.Validator.ValidateStyles | app/src/JBGDocxInternalValidator.py:108-123 | appends exactly the style problems |
| InternalValidator.Validator.ValidateSettings | app/src/JBGDocxInternalValidator.py:125-136 | appends exactly the settings problems |
| InternalValidator.Validator.ValidateComments | app/src/JBGDocxInternalValidator.py:138-157 | appends exactly the comment problems |
| InternalValidator.Validator.CheckWellformedParts | app/src/JBGDocxInternalValidator.py:159-167 | appends one problem per broken `.xml` entry, in archive order |
| InternalValidator.Validator.Validate | app/src/JBGDocxInternalValidator.py:171-179 | the error list grows by the problems of the five checks in order; the call fails iff a check raises, and otherwise returns the list |
| QualityChecker.MissingCritical | app/src/JBGDocxQualityChecker.py:19-59 | the missing styles are critical ones; none when the part is absent, all when it does not parse |
| QualityChecker.MissingCriticalIff | app/src/JBGDocxQualityChecker.py:19-33 | a critical style is missing iff no style has it as a non-empty id |
| QualityChecker.QualityReport | app/src/JBGDocxQualityChecker.py:52-71 | the report is sparse iff fewer than ten rsids are counted; without a settings part tracking is off and no rsid is counted |
| QualityChecker.TrackingIff | app/src/JBGDocxQualityChecker.py:42-60 | tracking is reported iff `trackRevisions` is a direct child of the settings root |
| QualityChecker.CountedRsidsAreDeclared | app/src/JBGDocxQualityChecker.py:44-47 | the counted values are exactly the non-empty values of `w:rsid` children of a `w:rsids` child of the root |
| QualityChecker.PatchedStylesPassCheck | app/src/JBGDocxQualityChecker.py:19-33 | after the styles patch no critical style is missing |
| QualityChecker.InjectedRsidsCounted | app/src/JBGDocxQualityChecker.py:44-47 | after the rsid injection the counted values are exactly the non-empty ids of the pool |
| InternalValidator.Validator.constructor | app/src/JBGDocxInternalValidator.py:80-83 | a new validator starts with an empty error list |
| TrackedInserter.Replacement | app/src/JBGTrackedChangesInserter.py:92-110 | a replacement adds between two and four nodes: the deletion and the insertion, with a plain run before and after when those pieces are not blank |
| TrackedInserter.ReplacementViews | app/src/JBGTrackedChangesInserter.py:92-110 | read as deleted text the added nodes give the text before, the old phrase and the text after; read as inserted text they give the same with the new phrase |
| TrackedInserter.WithTracking | app/src/JBGTrackedChangesInserter.py:47-49 | the settings root afterwards has `trackRevisions` and keeps its tag and attributes |
| TrackedInserter.Captured | app/src/JBGTrackedChangesInserter.py:23 | the entries kept at load are all entries of the file except the document part, unchanged |
| TrackedInserter.Cleared | app/src/JBGTrackedChangesInserter.py:79-88 | the runs kept are exactly the children that are not unprotected direct runs |
| TrackedInserter.ApplyToParagraphMeaning | app/src/JBGTrackedChangesInserter.py:58-117 | a paragraph raises exactly for an empty phrase, and otherwise is left unmatched exactly when the normalised phrase is not in its normalised text |
| TrackedInserter.ReplacedShowsChange | app/src/JBGTrackedChangesInserter.py:58-117 | a replaced paragraph keeps its tag, attributes and protected children in order; when the phrase occurs literally, the added nodes read back as the text with its first occurrence deleted and the replacement inserted; when only the normalised phrase matches, the whole text stands before the deletion |
| TrackedInserter.QuietRewriteIdentity | app/src/JBGTrackedChangesInserter.py:119-125 | a tree in which no paragraph matches is left as it was |
| TrackedInserter.QuietIffUncounted | app/src/JBGTrackedChangesInserter.py:119-125 | no paragraph of a tree matches iff the count of replaced paragraphs is zero |
| TrackedInserter.ApplyToParagraphs | app/src/JBGTrackedChangesInserter.py:119-125 | the loop fails exactly on an empty phrase with at least one paragraph, and otherwise counts the matching paragraphs |
| TrackedInserter.TrackedChangesInserter.constructor | app/src/JBGTrackedChangesInserter.py:10-25 | over a package whose document entry loads, the inserter holds the document tree and the other entries as they were at load |
| TrackedInserter.Open | app/src/JBGTrackedChangesInserter.py:10-25 | `__init__` raises KeyError when the document entry is missing and XMLSyntaxError when it does not parse; otherwise it gives a new inserter holding what was loaded |
| TrackedInserter.LoadSaveRoundTrip | app/src/JBGTrackedChangesInserter.py:20-25 | loading fails exactly when the document entry is missing or does not parse, with the matching error; saving what was loaded writes the package back unchanged |
| TrackedInserter.RewriteIsApply | app/src/JBGTrackedChangesInserter.py:119-123 | on a paragraph with no nested paragraphs the tree rewrite is what `apply_to_paragraph` makes of that paragraph |
| TrackedInserter.TrackedChangesInserter.EnableTrackChanges | app/src/JBGTrackedChangesInserter.py:41-56 | the file gets `trackRevisions` in its settings, or the call fails when the settings are missing or malformed; the loaded tree and entries are untouched |
| TrackedInserter.TrackedChangesInserter.ApplyTrackedReplacement | app/src/JBGTrackedChangesInserter.py:119-125 | the count of matching paragraphs is returned and the tree is rewritten, or the call fails on an empty phrase and leaves the tree; the file is untouched |
| TrackedInserter.TrackedChangesInserter.Save | app/src/JBGTrackedChangesInserter.py:127-135 | as written: the entries captured at load are written with the current tree, to the file itself when no other path is given |
| TrackedInserter.TrackedChangesInserter.SaveCurrent | app/src/JBGTrackedChangesInserter.py:127-135 | corrected: the entries the file holds now are written with the current tree |
| TrackedInserter.EnableIdempotent | app/src/JBGTrackedChangesInserter.py:47-49 | turning tracking on twice is turning it on once |
| TrackedInserter.StaleSaveLosesTracking | app/src/JBGTrackedChangesInserter.py:127-135 | as written: after tracking is turned on in a file that lacked it, the save writes settings without `trackRevisions` |
| TrackedInserter.CurrentSaveKeepsTracking | app/src/JBGTrackedChangesInserter.py:127-135 | corrected: saving the entries the file holds now keeps `trackRevisions` |
| ActivatorInserter.Checks | app/src/JBGTrackChangesActivatorInserter.py:56-59 | one check per run, in order, each the test on that run |
| ActivatorInserter.FirstStop | app/src/JBGTrackChangesActivatorInserter.py:57-59 | the loop stops at the first run that is not passed over, and runs to the end when every run is |
| ActivatorInserter.ScanKidsIsStop | app/src/JBGTrackChangesActivatorInserter.py:56-59 | scanning the children one by one stops where the loop over all runs below the paragraph stops |
| ActivatorInserter.FoundAt | app/src/JBGTrackChangesActivatorInserter.py:56-59 | the child holding the stopping run is the first child whose scan does not pass; none when all pass |
| ActivatorInserter.FoundAtIsScan | app/src/JBGTrackChangesActivatorInserter.py:56-59 | no child is found iff no run stops the loop, and the found child's scan is the loop's stop |
| ActivatorInserter.Without | app/src/JBGTrackChangesActivatorInserter.py:63 | removing a child keeps the others in order |
| ActivatorInserter.OutcomeMeaning | app/src/JBGTrackChangesActivatorInserter.py:55-85 | a paragraph is unmatched iff every run passes, raises on a run whose first `w:t` has no text iff that run stops the loop, raises on an empty phrase at a hit, and is replaced only at a hit with a non-empty phrase |
| ActivatorInserter.ReplacedRemovesStopRun | app/src/JBGTrackChangesActivatorInserter.py:55-84 | a replacement removes exactly the stopping run, a direct child, keeps the other children in order and appends the new nodes after them; the text of that run is rebuilt by the part before the first occurrence, the phrase and the part after |
| ActivatorInserter.StopsAt | app/src/JBGTrackChangesActivatorInserter.py:56-63 | when every earlier run passes, the loop stops at the first run that does not, and that run can be removed only when it is a direct child |
| ActivatorInserter.PassesThrough | app/src/JBGTrackChangesActivatorInserter.py:56-59 | a child whose runs all pass is passed over |
| ActivatorInserter.Outcomes | app/src/JBGTrackChangesActivatorInserter.py:89-90 | one outcome per paragraph, in document order |
| ActivatorInserter.Tally | app/src/JBGTrackChangesActivatorInserter.py:87-93 | the count is at most the number of paragraphs |
| ActivatorInserter.TallyNext | app/src/JBGTrackChangesActivatorInserter.py:89-92 | one more paragraph ends the loop with its error, or adds one to the count exactly when it is replaced |
| ActivatorInserter.TallyFailsAtFirst | app/src/JBGTrackChangesActivatorInserter.py:87-93 | the loop raises iff some paragraph raises, and then with the error of the first one |
| ActivatorInserter.TallyZeroIff | app/src/JBGTrackChangesActivatorInserter.py:87-93 | the count is zero iff every paragraph is unmatched |
| ActivatorInserter.TallyFailureSticks | app/src/JBGTrackChangesActivatorInserter.py:87-93 | once a paragraph raises, later paragraphs do not change the result |
| ActivatorInserter.RewriteFree | app/src/JBGTrackChangesActivatorInserter.py:89 | a tree without paragraphs is left as it was |
| ActivatorInserter.RewriteIsOutcome | app/src/JBGTrackChangesActivatorInserter.py:89-90 | on a paragraph with no nested paragraphs the tree rewrite is that paragraph's own outcome |
| ActivatorInserter.ActivatorChangesInserter.constructor | app/src/JBGTrackChangesActivatorInserter.py:10-22 | over a package whose document entry loads, the inserter holds the document tree and the other entries as they were at load |
| ActivatorInserter.Open | app/src/JBGTrackChangesActivatorInserter.py:10-22 | `__init__` raises KeyError when the document entry is missing and XMLSyntaxError when it does not parse; otherwise it gives a new inserter holding what was loaded |
| ActivatorInserter.ActivatorChangesInserter.EnableTrackChanges | app/src/JBGTrackChangesActivatorInserter.py:38-53 | the file gets `trackRevisions` in its settings, or the call fails when the settings are missing or malformed; the loaded tree and entries are untouched |
| ActivatorInserter.ActivatorChangesInserter.ApplyToParagraph | app/src/JBGTrackChangesActivatorInserter.py:55-85 | the run loop computes the paragraph's outcome |
| ActivatorInserter.ActivatorChangesInserter.ApplyToParagraphs | app/src/JBGTrackChangesActivatorInserter.py:87-93 | the paragraph loop computes the tally of the outcomes |
| ActivatorInserter.ActivatorChangesInserter.ApplyTrackedReplacement | app/src/JBGTrackChangesActivatorInserter.py:87-93 | the count is the tally of the paragraphs' outcomes; on success the tree is rewritten, on failure it is left; the file is untouched |
| ActivatorInserter.ActivatorChangesInserter.Save | app/src/JBGTrackChangesActivatorInserter.py:95-103 | as written: the entries captured at load are written with the current tree, to the file itself when no other path is given |
| ActivatorInserter.ActivatorChangesInserter.SaveCurrent | app/src/JBGTrackChangesActivatorInserter.py:95-103 | corrected: the entries the file holds now are written with the current tree |
| ActivatorInserter.EnableAndSave | app/src/JBGTrackChangesActivatorInserter.py:131-146 | as written: making the inserter, turning tracking on and saving fails where loading or enabling fails, and otherwise writes the settings read at load, so a file that lacked `trackRevisions` still lacks it |
| ActivatorInserter.EnableAndSaveCurrent | app/src/JBGTrackChangesActivatorInserter.py:131-146 | corrected: with the entries read when saving, the written settings hold `trackRevisions` |
| Text.Decimal | app/src/JBGDocumentStructureExtractor.py:54-109 | the decimal numeral of an index is a non-empty digit string, one digit exactly below ten |
| Text.DecimalInjective | app/src/JBGDocumentStructureExtractor.py:54-66 | different indexes have different numerals |
| StructureIndex.RenderInjective | app/src/JBGDocumentStructureExtractor.py:54-109 | two element ids are equal iff they name the same unit, so a `table_{t}_cell_{r}_{c}` id never collides with another cell's or with a numbered id |
| StructureIndex.Entry | app/src/JBGDocumentStructureExtractor.py:51-56 | an element's text is the unit's text stripped, and it is flagged empty iff that text is empty, that is iff the unit holds only whitespace |
| StructureIndex.PresentTextsNonEmpty | app/src/JBGDocumentStructureExtractor.py:170 | only `w:t` elements with non-empty text are joined, and nothing is joined iff all are empty |
| StructureIndex.DrawingTextEmptyIff | app/src/JBGDocumentStructureExtractor.py:169-171 | a drawing contributes text iff one of its `w:t` elements has non-empty text |
| StructureIndex.BoxesSpec | app/src/JBGDocumentStructureExtractor.py:165-174 | the textbox texts are non-empty, at most one per drawing, each the joined text of some drawing, and none iff no drawing has text |
| StructureIndex.ExtractTextboxTexts | app/src/JBGDocumentStructureExtractor.py:157-174 | the drawing loop computes the paragraph's textbox texts |
| StructureIndex.BoxDrawingsMatchBoxes | app/src/JBGDocumentStructureExtractor.py:157-194 | the drawings kept for the map are as many as the textbox texts, and the k-th text is the k-th kept drawing's text |
| StructureIndex.KeptSpec | app/src/JBGDocumentStructureExtractor.py:215-227 | the footnotes kept are at most as many as in the part; each has stripped non-empty text and an id other than `-1` and `0`; a footnote is kept iff some footnote element yields it |
| StructureIndex.ExtractFootnoteTexts | app/src/JBGDocumentStructureExtractor.py:196-232 | the footnote loop computes the kept footnotes; none when the part is absent or does not parse |
| StructureIndex.KeptNodesMatchKept | app/src/JBGDocumentStructureExtractor.py:196-273 | the footnote elements kept for the map are as many as the footnote texts, and in the same order |
| StructureIndex.AppendListed | app/src/JBGDocumentStructureExtractor.py:50-90 | appends one element per paragraph, numbered from 1 |
| StructureIndex.AppendCells | app/src/JBGDocumentStructureExtractor.py:60-69 | appends one element per table cell, keyed by table, row and column counted from 1 |
| StructureIndex.AppendTable | app/src/JBGDocumentStructureExtractor.py:61-69 | the row loop appends every row's cells, row after row |
| StructureIndex.AppendRow | app/src/JBGDocumentStructureExtractor.py:62-69 | the column loop appends the row's cells in column order, each keyed by table, row and 1-based column |
| StructureIndex.AppendTextboxes | app/src/JBGDocumentStructureExtractor.py:93-103 | appends one element per textbox text, numbered with one counter across the paragraphs |
| StructureIndex.AppendBoxes | app/src/JBGDocumentStructureExtractor.py:96-103 | the inner loop appends one element per textbox text of a paragraph, numbered on from the counter, and leaves the counter one past the last number used |
| StructureIndex.AppendNotes | app/src/JBGDocumentStructureExtractor.py:106-113 | appends one element per kept footnote, with its id attribute |
| StructureIndex.ExtractDocxTexts | app/src/JBGDocumentStructureExtractor.py:42-115 | the element list is the paragraphs, cells, header, footer, textboxes and footnotes in that order; the call fails exactly when the body has no section, where `doc.sections[0]` raises IndexError |
| StructureIndex.StructureDistinct | app/src/JBGDocumentStructureExtractor.py:42-115 | no two elements of the list have the same key |
| StructureIndex.StructureIdsUnique | app/src/JBGDocumentStructureExtractor.py:42-115 | no two elements of the list have the same `element_id` |
| StructureIndex.StructureTexts | app/src/JBGDocumentStructureExtractor.py:42-115 | every element's text is stripped, its `empty` flag says whether the text is empty, and no footnote is empty |
| StructureIndex.EnterSelf | app/src/JBGDocumentStructureExtractor.py:125-153 | a map filled from pairs that send each id to its own unit holds exactly the ids entered, each mapped to itself |
| StructureIndex.IndexSpec | app/src/JBGDocumentStructureExtractor.py:118-155 | the map of an element list holds exactly the list's keys, each mapped to its own unit |
| StructureIndex.EnterNumbered | app/src/JBGDocumentStructureExtractor.py:125-137 | entering a numbered series adds its ids, and the loop variable ends at the last index, or keeps its earlier value for an empty series |
| StructureIndex.EnterRow | app/src/JBGDocumentStructureExtractor.py:131-132 | the column loop enters the row's cell ids |
| StructureIndex.EnterTable | app/src/JBGDocumentStructureExtractor.py:130-132 | the row loop enters the table's cell ids |
| StructureIndex.EnterCells | app/src/JBGDocumentStructureExtractor.py:129-132 | the table loop enters every cell id |
| StructureIndex.EnterTextboxes | app/src/JBGDocumentStructureExtractor.py:144-149 | the textbox loop enters `textbox_1` to `textbox_n`, n the number of textboxes |
| StructureIndex.EnterBoxes | app/src/JBGDocumentStructureExtractor.py:147-149 | the inner loop enters one id per textbox of a paragraph, continuing the counter, so the ids entered so far are `textbox_1` up to one below the counter |
| StructureIndex.EnterLeading | app/src/JBGDocumentStructureExtractor.py:125-137 | the first three passes enter the paragraph, cell and header ids, and leave `i` bound to the last header index, else the last paragraph index |
| StructureIndex.ElementMapAsWritten | app/src/JBGDocumentStructureExtractor.py:118-155 | as written: every footer paragraph is entered under the footer id built from `i`; the map fails on a body without a section, an unbound `i` or a broken footnotes part |
| StructureIndex.EnterStaleFooters | app/src/JBGDocumentStructureExtractor.py:139-141 | as written, every footer paragraph is entered under the footer id built from the stale index, so each one overwrites the one before |
| StructureIndex.ElementMap | app/src/JBGDocumentStructureExtractor.py:118-155 | corrected: the map is the index of the element list; like the element list, it fails exactly when the body has no section |
| StructureIndex.ElementMapMatchesIds | app/src/JBGDocumentStructureExtractor.py:42-155 | the corrected map holds exactly the ids of the element list, each naming the unit its element came from |
| StructureIndex.FooterKeysAsWritten | app/src/JBGDocumentStructureExtractor.py:136-141 | as written, one header paragraph and two footer paragraphs give a map with `footer_1` naming the second footer paragraph and no `footer_2` |
| StructureIndex.FooterIdsListed | app/src/JBGDocumentStructureExtractor.py:82-90 | the element list of that document names both `footer_1` and `footer_2` |
| StructureIndex.UnboundFooterIndex | app/src/JBGDocumentStructureExtractor.py:125-141 | as written, a footer paragraph with no body paragraph and a header part holding no paragraph makes the map fail on the unbound `i`; the corrected map has `footer_1` |
| StructureIndex.BrokenFootnotesAsWritten | app/src/JBGDocumentStructureExtractor.py:234-273 | as written, a footnotes part that does not parse makes the map fail, because the handler names `self` in a static method; the element list just has no footnotes |
| StructureIndex.LinesSpec | app/src/JBGDocumentStructureExtractor.py:282-286 | every line is a non-blank block, stripped, under its 1-based position; line numbers increase; no non-blank block is left out |
| StructureIndex.LinesSkipBlank | app/src/JBGDocumentStructureExtractor.py:282-286 | a blank block leaves a gap in the line numbering |
| StructureIndex.ExtractPdf | app/src/JBGDocumentStructureExtractor.py:276-293 | one page per input page, numbered from 1, each with the lines of its blocks |
| LegacyStructure.LastIndexOf | JBGDocumentStructureExtractor.py:10 | the index found holds the character and no later index does; -1 when there is none |
| LegacyStructure.ExtensionSpec | JBGDocumentStructureExtractor.py:10 | an extension is empty or the end of the path, starting with its only dot and crossing no separator |
| LegacyStructure.ExtensionOfSuffix | JBGDocumentStructureExtractor.py:10 | after a named last component, a dot and a suffix with no dot or separator, the extension is that dot and suffix |
| LegacyStructure.UpperCaseAccepted | JBGDocumentStructureExtractor.py:10-17 | the extension is lower-cased, so any named file ending `.DOCX` counts as `.docx` and `.Pdf` as `.pdf` |
| LegacyStructure.DotFileHasNoExtension | JBGDocumentStructureExtractor.py:10 | a name with only dots before its last dot, such as `.docx`, has no extension |
| LegacyStructure.LastSuffixOnly | JBGDocumentStructureExtractor.py:10 | a dot before the last separator does not start an extension |
| LegacyStructure.DocumentStructureExtractor.constructor | JBGDocumentStructureExtractor.py:8-11 | the extractor records the lower-cased extension and has no structure yet |
| LegacyStructure.DocumentStructureExtractor.ExtractDocx | JBGDocumentStructureExtractor.py:22-35 | one entry per paragraph, empty ones included, numbered from 1, its text stripped and flagged empty iff only whitespace was there |
| LegacyStructure.DocumentStructureExtractor.Extract | JBGDocumentStructureExtractor.py:13-54 | `.docx` gives the paragraph entries, `.pdf` one numbered page per page with its lines, anything else the error; a result is kept as the structure, and a failure leaves it |
| Batching.PdfElementsAppend | app/src/JBGLangImprovSuggestorAI.py:78-81 | the PDF lines are flattened page by page |
| Batching.PdfElementsMembership | app/src/JBGLangImprovSuggestorAI.py:78-81 | an element is produced iff some page holds that line, tagged with its page |
| Batching.Elements | app/src/JBGLangImprovSuggestorAI.py:75-83 | a "docx" structure gives its paragraphs, a "pdf" structure its lines, and any other type the error "Unsupported document type." |
| Batching.StepKeepsInv | app/src/JBGLangImprovSuggestorAI.py:89-97 | one step of the loop keeps the open chunk list greedy and the count equal to the prompt plus the open chunk |
| Batching.RunInv | app/src/JBGLangImprovSuggestorAI.py:85-97 | after any prefix of the elements the loop state is greedy, and the open chunk is non-empty once an element was seen |
| Batching.ChunksGreedy | app/src/JBGLangImprovSuggestorAI.py:85-100 | the chunks give the elements back in order; no chunk but the first is empty; each later chunk starts because its first element did not fit beside the previous one; a chunk within budget unless it is one oversize element |
| Batching.ChunksEmptyIff | app/src/JBGLangImprovSuggestorAI.py:85-100 | no request is made iff there are no elements |
| Batching.FirstChunkEmptyIff | app/src/JBGLangImprovSuggestorAI.py:87-92 | the first chunk is empty iff the first element with the prompt exceeds the budget |
| Batching.EmptyFirstRequest | app/src/JBGLangImprovSuggestorAI.py:87-92 | as written: an oversize first element sends an empty chunk as a request |
| Batching.SentChunksNonEmpty | app/src/JBGLangImprovSuggestorAI.py:89-100 | corrected: closing the open chunk only when it holds something gives chunks that are all non-empty, rebuild the elements in order, and each start because their first element did not fit |
| Batching.ChunkElements | app/src/JBGLangImprovSuggestorAI.py:85-100 | the loop with a budget of four characters per token computes the chunks, which are greedy |
| Batching.GatheredAppend | app/src/JBGLangImprovSuggestorAI.py:104-131 | the suggestions of consecutive request lists are concatenated |
| Batching.FailureContributesNothing | app/src/JBGLangImprovSuggestorAI.py:128-129 | a failed request adds no suggestions and does not disturb the others |
| Batching.GatheredMembership | app/src/JBGLangImprovSuggestorAI.py:104-131 | a suggestion is gathered iff some successful request returned it |
| Batching.Suggestor.constructor | app/src/JBGLangImprovSuggestorAI.py:67-73 | a new suggestor holds the policy prompt and no suggestions |
| Batching.Suggestor.SuggestBatched | app/src/JBGLangImprovSuggestorAI.py:67-131 | fails with "Unsupported document type." exactly on an unknown type, leaving the suggestions; otherwise sends the greedy chunks, charged the prompt length, and keeps the concatenated suggestions of the successful requests |
| Fences.StripFences | app/src/JBGLangImprovSuggestorAI.py:134-141 | a reply whose stripped form does not open with a fence is returned as it is, and the cleaned reply is never longer |
| Fences.FencedResultStripped | app/src/JBGLangImprovSuggestorAI.py:137-140 | a cleaned fenced reply has no whitespace left at either end |
| Fences.NewlinesAroundStrip | app/src/JBGLangImprovSuggestorAI.py:139-140 | whitespace around a text does not change its stripped form |
| Fences.UnwrapRoundTrip | app/src/JBGLangImprovSuggestorAI.py:134-141 | a body wrapped in a fence tagged `json` or untagged comes back stripped |
| Fences.UpperTagKept | JBGLangImprovSuggestorAI.py:67 | only a lowercase `json` tag is removed |
| Fences.OneClosingFence | JBGLangImprovSuggestorAI.py:68-69 | only one closing fence is removed |
| Fences.UnfencedUntouched | JBGLangImprovSuggestorAI.py:66-70 | an unfenced reply keeps its surrounding whitespace |
| Fences.LStripConcat | app/src/JBGLangImprovSuggestorAI.py:138-140 | stripping the front of a concatenation skips the first part iff it is all whitespace |
| Text.LStripSpec | app/src/JBGDocumentStructureExtractor.py:51 | the left-stripped text is a suffix of the original, only whitespace goes, and what is left does not start with whitespace |
| Text.RStripSpec | app/src/JBGDocumentStructureExtractor.py:51 | the right-stripped text is a prefix of the original, only whitespace goes, and what is left does not end with whitespace |
| Text.StripSlice | app/src/JBGDocumentStructureExtractor.py:51 | a stripped text is a slice of the original with only whitespace around it, and it starts and ends with non-space |
| Text.StripEmptyIff | app/src/JBGDocumentStructureExtractor.py:56 | a text strips to nothing iff it is all whitespace |
| Text.StripIdempotent | app/src/JBGDocumentStructureExtractor.py:51 | stripping twice is stripping once |
| Text.CollapseIsCollapsed | app/src/JBGDocumentEditor.py:160 | after collapsing, every whitespace character is a single plain space |
| Text.CollapsedIsFixed | app/src/JBGDocumentEditor.py:160 | a collapsed text is left as it is by collapsing |
| Text.NormalizeIsNormal | app/src/JBGDocumentEditor.py:157-160 | a normalised text has whitespace only as single plain spaces between non-space characters |
| Text.NormalFormIsFixed | app/src/JBGDocumentEditor.py:157-160 | a text in normal form is left as it is by normalisation |
| Text.NormalizeIdempotent | app/src/JBGDocumentEditor.py:157-160 | normalising twice is normalising once, and a text is its own normalisation iff it is in normal form |
| Text.IndexFromSpec | app/src/JBGTrackedChangesInserter.py:69 | the search from a position finds the first occurrence at or after it, or none exists |
| Text.IndexOfSpec | app/src/JBGTrackedChangesInserter.py:69 | the search finds the phrase iff it occurs, and then at its leftmost occurrence |
| Text.EmptyIsEverywhere | app/src/JBGTrackedChangesInserter.py:69 | the empty phrase occurs in every text, at its start |
| Text.SplitChars | app/src/JBGDocumentEditor.py:87 | splitting on the empty pattern gives each character as its own piece |
| Text.ReplaceNoOccurrence | app/src/JBGDocumentEditor.py:87-93 | replacing a phrase that does not occur leaves the text as it was |
| Text.SplitJoinIsReplace | app/src/JBGDocumentEditor.py:87-93 | joining the pieces of a split with a replacement is replacing every occurrence |
| Text.SplitJoinRoundTrip | app/src/JBGDocumentEditor.py:87-93 | joining the pieces of a split with the pattern gives the text back |
| Text.ReplaceWithItself | app/src/JBGDocumentEditor.py:87-93 | replacing a pattern by itself leaves the text as it was |
| Text.JoinCharsDirect | app/src/JBGDocumentEditor.py:87-93 | with the empty pattern, the pieces are the characters with an empty piece at each end, and joining them inserts the replacement around every character |
| Text.PartitionSpec | app/src/JBGTrackedChangesInserter.py:76 | when the phrase occurs, the part before it, the phrase and the part after it give the text back and the first part does not contain the phrase; otherwise the whole text comes first and nothing after |
| Text.MissingChar | app/src/JBGTrackedChangesInserter.py:69 | a phrase with a character the text lacks does not occur in it |

## Left out

- python-docx, lxml and PyMuPDF are not part of this model. A document is given as what those libraries would return, and XPath queries are explicit tree traversals.
- Zip and file-system plumbing (reading and writing archives, temporary directories, copies, output-path naming) is left out. A package is a map from part name to part.
- Randomness, the clock and the network are parameters: rsid values, `random.choice`, `randint`, uuids, timestamps and the service's replies. Sleeps and retries are not modelled.
- JSON is not modelled. An element's serialised length is a `size` parameter of the chunker, and a parsed reply is a list of suggestions.
- PDF blocks are taken in the order the extractors sort them. The sort key negates the top coordinate, so the order is bottom-up despite the comment calling it top-down. The model does not restate that order.
- File extensions follow POSIX path rules, and lower-casing covers ASCII letters only.
- Only the first section's header and footer are read, as in the source. Sections are not modelled beyond whether the body has one.
- `_extract_docx_texts_simple` and the `extract` dispatch of app/src/JBGDocumentStructureExtractor.py are not modelled. They only combine the modelled collectors.
- StructureIndex.ElementMap: the map is keyed by a structured key rather than the rendered id string. `RenderInjective` shows the two are equivalent.
- The batching code reads the key `"paragraphs"`, while the current extractor emits `"elements"`. The model takes the structure in the shape the batching code reads.
- `save_as_json`, the command-line `main` functions and logging are left out.
- QualityChecker: a logger is assumed. The source's default `logger=None` would fail on the first broken part it reports.
- ActivatorInserter.ActivatorChangesInserter.ApplyTrackedReplacement: on failure the document tree is left unchanged. The source leaves earlier paragraphs already modified.
- PDF annotation (`_annotate_pdf*`, `_deduplicate_annotations`, `_clean_pdf_text`) is float rectangle geometry over library objects and is left out.
- The editor wiring and the validate → repair → revalidate flow (app/src/JBGSuperDocumentEditor.py:20-153) are plumbing and are left out.
- app/src/JBGDocxRepairer.py (Word automation), app/main.py (the web endpoint) and app/src/JBGLanguageImprover.py (orchestration) are not part of this model.
- The never-called helpers `_inject_minimal_styles_xml`, `_validate_or_patch_styles`, `_inject_fresh_styles_xml`, `_final_patch_document_xml` and `_final_patch_settings_xml` are left out.
- InternalValidator.RelsCheck: when an element below the relationships root has no target and every required target is linked, the source's containment test may still raise. It raises when the set iteration reaches the missing target before a target containing the required one, and set order is not specified. The model assumes the containing target comes first and does not raise. `InternalValidator.Targets` keeps the missing target as `None` for this reason.
- InternalValidator: the checks are stated for any attribute reader. `LiteralKeys` is what the literal keys `w:styleId` and `w:id` read under lxml; `ClarkKeys` is the namespaced lookup (see Findings).
- Batching.Suggestor.SuggestBatched keeps the chunking as written, empty first chunk included. The corrected chunking stands beside it.
- Text after a child element (lxml's `tail`), XML comments and processing instructions are not modelled.
- A change's "paragraph" is an integer or `NotANumber` (a string, null, array or object). Booleans count as the integers 0 and 1, as Python compares them. JSON numbers with a fraction are not modelled: `1.0` equals 1 in a comparison but raises as a list index, and the model does not tell it apart.
- A change entry that is not an object is `Sequence` (a string or array; the flag says whether it holds "paragraph") or `Scalar` (a number, boolean or null). Entries are not modelled beyond what the editors test of them.
- TrackedInserter.TrackedChangesInserter.constructor: requires a package whose document entry loads. The KeyError and XMLSyntaxError of `__init__` are modelled by `TrackedInserter.Open`.
- ActivatorInserter.ActivatorChangesInserter.constructor: requires a package whose document entry loads. The KeyError and XMLSyntaxError of `__init__` are modelled by `ActivatorInserter.Open`.

## Findings

| source | as written | input that shows it | evidently intended | confidence | as-written member | corrected member |
|---|---|---|---|---|---|---|
| app/src/JBGDocumentEditor.py:82-93 | the empty old phrase used to fill an empty paragraph passes the `not in` guard, and `re.split` on it splits between every character | an empty paragraph 1 and the change `{paragraph: 1, old: "", new: "Hi"}`: the filled paragraph then reads `HiHHiiHi` in the updated view | a change with an empty old phrase fills the paragraph and is not applied again | not executed | MarkupEditor.EmptyOldRepeatsFill | MarkupEditor.SkippingEmptyKeepsFill |
| app/src/JBGTrackedChangesInserter.py:127-135 | `save` writes the entries captured at load, so a later `enable_track_changes` is lost | a file whose settings lack `trackRevisions`: enable tracking, then save, and the saved settings still lack it | `save` writes the settings as they are now | not executed | TrackedInserter.StaleSaveLosesTracking | TrackedInserter.CurrentSaveKeepsTracking |
| app/src/JBGDocumentStructureExtractor.py:139-141 | footer keys are built from the header loop's `i`, not `fi` | one header paragraph and two footer paragraphs: `footer_1` names the second footer paragraph and there is no `footer_2` | `footer_{fi+1}`, matching the ids of the element list | not executed | StructureIndex.FooterKeysAsWritten | StructureIndex.ElementMapMatchesIds |
| app/src/JBGDocumentStructureExtractor.py:125-141 | `i` is unbound when the body has no paragraph and the header has none | no body paragraph, a header part with no `w:p` of its own, and one footer paragraph: the map raises. A section without any header part gets a default header with one paragraph, which binds `i` | the footer paragraph is entered as `footer_1` | not executed; plausible, since it needs a header part without a direct paragraph | StructureIndex.UnboundFooterIndex | StructureIndex.ElementMapMatchesIds |
| app/src/JBGDocumentStructureExtractor.py:234-273 | the static `_extract_footnotes` names `self` in its exception handler | a footnotes part that does not parse: the handler itself raises, so the element map fails | the failure is logged and no footnotes are returned | not executed | StructureIndex.BrokenFootnotesAsWritten | StructureIndex.ElementMap |
| app/src/JBGLangImprovSuggestorAI.py:91-92 | the open chunk is closed even when it is empty | prompt 0, budget 1, one element of size 2: the chunks are `[[], [e]]`, so an empty request is sent | the open chunk is closed only when it holds something | not executed | Batching.EmptyFirstRequest | Batching.SentChunksNonEmpty |
| app/src/JBGTrackChangesActivatorInserter.py:95-103 | `save` writes the entries captured at load, and `main` (lines 131-146) turns tracking on before saving | a file whose settings lack `trackRevisions`, run through `main`: the saved settings still lack it | `save` writes the settings as they are now | not executed | ActivatorInserter.EnableAndSave | ActivatorInserter.EnableAndSaveCurrent |
| app/src/JBGDocxInternalValidator.py:118 | `s.get("w:styleId")` passes a prefixed key, which lxml never matches, because it names the attribute `{uri}styleId` | any styles part that parses, for example one defining `Normal`: every required style is reported missing | the style ids are read with the namespaced key | not executed | InternalValidator.LiteralKeysMissEveryStyle | InternalValidator.TranslatedStyleCounts |
| app/src/JBGDocxInternalValidator.py:145-155 | `c.get("w:id")` and `ref.get("w:id")` read nothing, so every comment id and reference id is None | a comment with id 0 and a reference to id 1: nothing is reported | the reference to id 1 is reported as dangling | not executed | InternalValidator.LiteralKeysHideDangling | InternalValidator.ClarkKeysReportDangling |
