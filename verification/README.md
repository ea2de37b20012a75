# NoteCloud front-end core, modelled in Dafny

NoteCloud is a static note viewer. It reads a manifest (`nav.xml`) and builds
a collapsible navigation tree from it. It fetches markdown notes into a
preview pane, numbering the lines of code blocks as it renders them. Two
sidebars hold sortable lists of items, each tied by `data-ref` to a panel.
Those items can be dragged within a list or into the other sidebar, with
animation classes, and the sidebars can be resized with bars. On a narrow
window the two sidebars are merged.

This project models that behaviour as pure Dafny functions over immutable
data, and proves what the scripts promise about it:

| module | file | models |
|---|---|---|
| `Options` | options.dfy | `null`/`NaN`/exceptions as `None` |
| `Text` | text.dfy | `split`/`join` on one character, `${n}`, decimal `parseInt` |
| `ClassList` | classlist.dfy | `classList.toggle` |
| `NavTree` | navtree.dfy | the `NavTree` widget of scripts/navtree.js: items, lists, activation, expanders, avatar |
| `Manifest` | manifest.dfy | `createNotesNavTree` and its recursive `buildTree` |
| `CodeLines` | codelines.dfy | line numbering in `fillMdToElement` and in `loadSuccess` |
| `Loading` | loading.dfy | the request handlers of `loadFile`, `loadMdFile`, `loadMdFileToElement` |
| `Sortable` | sortable.dfy | scripts/sortable.js: `mod`, animation classes, `moveWithAnimation`, `onDragOver`, the drag counter |
| `Sidebar` | sidebar.dfy | scripts/sidebar.js: selection, `movetonewlist`, resize bars, `onResize` |
| `PageEvents` | events.dfy | scripts/events.js: `switchState`, `addExpanderForAllBranch` |

How the DOM is represented:
- A list of `.item` elements is a `seq<Item>`. Node identity is the `id` field.
- A class list is a `set<string>`.
- A CSS width variable is the string `getPropertyValue` returns, e.g. `"250px"`.
- The navigation widget is a tree of items addressed by paths of child indices.
- Layout values (`offsetTop`, `offsetHeight`, `pageY`, `clientX`, `clientWidth`) are integer parameters.
- The request (`readyState`, `status`, response text) is a set of parameters.
- The markdown renderer and the highlighter are opaque: the renderer's output arrives as its list of `code` elements, and the highlighter is a function parameter.

JavaScript semantics are written out where they matter:
- `%` truncates toward zero, so `mod` uses a JavaScript remainder rather than Dafny's Euclidean one.
- `mod(0)` is `NaN`, modelled as `None`.
- `indexOf` gives -1 for a missing node.
- `insertBefore` detaches the node before inserting it.
- `parseInt` gives `NaN` on text without a leading number, and every comparison with `NaN` is false.
- `appendChild(null)` throws, modelled as `None`.

The model follows the code on two points:
- A load fails on any status other than exactly 200. A 2xx status other than 200 also raises the alert (scripts/loadresource.js:28, scripts/loadnotes.js:26).
- The alert of `loadMdFile` names only the status, not the URL.

## Model

| member | source | states |
|---|---|---|
| ClassList.Toggle | scripts/sidebar.js:6 | the toggled class is present afterwards exactly when it was absent before; every other class keeps its membership |
| ClassList.ToggleTwice | scripts/sidebar.js:6 | toggling the same class twice restores the class list |
| NavTree.CreateNavItem | scripts/navtree.js:121-145 | the new item is appended at the end of the parent list, inactive, titled by its text with the line breaks dropped, and a link exactly when a callback was given; the returned path leads to it; every item that existed before keeps its shell and the avatar is unchanged |
| NavTree.CreateNavList | scripts/navtree.js:153-166 | a closed, non-link `_branch` item, titled by its text with the line breaks dropped, with an empty nested list is appended to the parent list; the returned path is where its entries go; the rest of the widget is unchanged |
| NavTree.NoBreaksKeepsLine | scripts/navtree.js:132-133 | a label without line breaks is its own title |
| NavTree.NoBreaksCounts | scripts/navtree.js:132-133 | the title holds every character of the label except line feeds and carriage returns, as often as the label does, and no line break |
| NavTree.NoBreaksExample | scripts/navtree.js:132-133 | the label "\n  Intro\n" is titled "  Intro" |
| NavTree.AppendKeepsItems | scripts/navtree.js:127 | appending to one list keeps every existing item, and what lies under it, where it was |
| NavTree.FirstActiveSpec | scripts/navtree.js:88 | the first active link found is an active link, and none is found only when no link is active |
| NavTree.FirstActiveIsFirst | scripts/navtree.js:88 | no active link comes before the one found, in document order |
| NavTree.ClearFirstActive | scripts/navtree.js:88-90 | only the first active link loses `_activate`; nothing changes when there is none; no item appears or disappears |
| NavTree.OnItemClickSelects | scripts/navtree.js:84-93 | after a click on a link, that link is the single active item, link flags and texts are unchanged, no item appears or disappears, and at most one link stays active; a click on the active item changes nothing |
| NavTree.OnItemClickOnlyActivates | scripts/navtree.js:84-93 | a click changes nothing but activation: every item keeps its text, title, link flag, `data-src` and open state, and the avatar is unchanged |
| NavTree.ToggleOpen | scripts/navtree.js:100-112 | a click on a branch's expander flips that branch's `_opened` state, and every other item keeps its shell |
| NavTree.ToggleOpenTwice | scripts/navtree.js:103-109 | two clicks on the same expander restore the widget exactly |
| NavTree.SummonAvatar | scripts/navtree.js:62-71 | the shared avatar shows the label of the hovered item; the items are unchanged |
| NavTree.HideAvatar | scripts/navtree.js:77-79 | the avatar is emptied and the items are unchanged |
| NavTree.DispatchClick | scripts/navtree.js:137-141 | the caller's callback runs exactly when the item is a link; it sees the widget as activation left it; a non-link item ignores clicks |
| NavTree.CallbackSeesActivation | scripts/navtree.js:137-141 | because `onItemClick` is registered first, the callback sees the clicked link already active, and the only active item |
| NavTree.StepKeepsInvariants | scripts/navtree.js:62-112 | every pointer event keeps "only links are active, at most one" and "the avatar shows a label of this widget"; events other than clicks change no activation and no link flag |
| NavTree.NoneActiveInvariants | scripts/navtree.js:62-112 | a widget with no active item and an empty avatar satisfies both invariants |
| NavTree.RunKeepsInvariants | scripts/navtree.js:62-112 | any sequence of events keeps both invariants |
| NavTree.LastClickedIsActive | scripts/navtree.js:84-93 | after a click on a link, whatever hovering and expanding follows, the clicked link is the only active item |
| NavTree.NonClicksKeepActivation | scripts/navtree.js:62-79 | events without a click keep every item's activation |
| NavTree.NonLinkNeverActive | scripts/navtree.js:137-141 | an item created without a callback never becomes active, whatever events follow |
| NavTree.StepKeepsShape | scripts/navtree.js:62-112 | no event adds or removes items or changes link flags |
| Manifest.BuildTree | scripts/navtree.js:179-195 | building a manifest element into a list appends exactly the items it contributes to that list and changes nothing else |
| Manifest.NoteSetsSrc | scripts/navtree.js:184-187 | a `note` becomes one new item with the note's `src` as `data-src` |
| Manifest.BuildChildren | scripts/navtree.js:191-193 | building the children in turn appends their contributions in document order |
| Manifest.CreateNotesNavTree | scripts/navtree.js:175-196 | the fresh widget's top-level list holds exactly what the `notes` element contributes, and the avatar is empty |
| Manifest.LeavesFollowManifest | scripts/navtree.js:179-195 | the plain items of the built tree, in document order, are the `note` elements reached, in the order they are reached, labelled by their inner markup and carrying their `src` |
| Manifest.BranchesFollowManifest | scripts/navtree.js:189-193 | the branches of the built tree, in document order, are named by the `note-list` elements reached |
| Manifest.VisitedIsPreorder | scripts/navtree.js:179-195 | in a manifest of known elements, `buildTree` reaches every element, in pre-order |
| Manifest.NotesNavTreeFollowsManifest | scripts/navtree.js:175-196 | for a manifest of known elements, the tree's items are its `note` elements and its branches its `note-list` elements, both in pre-order |
| Manifest.NotesNavTreeStartsValid | scripts/navtree.js:175-196 | the built widget has no active item, and satisfies "only links are active, at most one" and "the avatar shows a label of this widget" |
| Manifest.NotesNavTreeRunValid | scripts/navtree.js:175-196 | whatever events follow, the built widget keeps both invariants |
| Manifest.UnknownElementSkipped | scripts/navtree.js:180-194 | an element of any other name adds nothing and is not descended into |
| Loading.LoadFileOutcome | scripts/loadresource.js:26-34 | nothing happens until the request is done; then the callback runs exactly on status 200, and otherwise an alert is raised whose text contains both the status and the URL |
| Loading.LoadMdFileOutcome | scripts/loadnotes.js:24-32 | the same decision, with an alert whose text contains the status |
| Loading.LoadIntoElementOrder | scripts/loadresource.js:113-124 | on status 200 the content is filled exactly once, before the catalogue is rebuilt exactly once; on any other status the only effect is an alert naming the status and the URL |
| CodeLines.NumberLines | scripts/loadresource.js:57-98 | the countdown loop produces one row per "\n"-separated segment, one more than the number of line breaks; the rows are numbered 1..n in order, row k holds segment k, and joining the rows with "\n" gives back the markup |
| CodeLines.FillCode | scripts/loadresource.js:43-102 | every code element is highlighted; those whose parent is a `pre` are replaced by numbered rows as above; the others keep the highlighted markup |
| CodeLines.LowerAscii | scripts/loadresource.js:51 | `toLowerCase` maps each ASCII capital to its small letter and keeps every other character |
| CodeLines.InPreEitherCase | scripts/loadresource.js:50-51 | a parent tag spelled `PRE` or `pre` is recognised as `pre` |
| CodeLines.LineNumberColumn | scripts/loadnotes.js:60-66 | the column holds exactly one span per line |
| CodeLines.NumberBlock | scripts/loadnotes.js:47-70 | the markup is the highlighted markup; a line-number column is added exactly when the parent is a `pre`, with one span per "\n"-separated line, one more than the number of line breaks |
| Text.JoinSplit | scripts/loadresource.js:57 | joining the segments of `split("\n")` with "\n" gives back the text |
| Text.SplitCount | scripts/loadnotes.js:60 | `split` yields one segment more than there are separators |
| Text.SplitJoin | scripts/loadresource.js:57 | splitting a join of separator-free segments gives back the segments |
| Text.ParseInt | scripts/sidebar.js:37-44 | `parseInt` yields a number exactly when, after white space and a sign, the text starts with a digit |
| Text.ParseIntOfPadded | scripts/sidebar.js:37-44 | leading white space is skipped and the number stops at the first non-digit, so the value is that of the digits read |
| Text.ParseIntOfPaddedSigned | scripts/sidebar.js:37-44 | the same with a sign: `-` negates the value, `+` keeps it |
| Text.ParseIntExamples | scripts/sidebar.js:37-44 | `" 250"` and `"250.5"` both read as 250 |
| Text.DigitPrefixIsPrefix | scripts/sidebar.js:37-40 | the digits `parseInt` reads are the first characters of the text it reads them from |
| Text.TrimStartIsSuffix | scripts/sidebar.js:37-40 | the white space `parseInt` skips is a prefix: what is left is the end of the text |
| Text.ParseIntOfIntToString | scripts/sidebar.js:47-49 | reading back the decimal text of an integer gives the integer |
| Sortable.JsRem | scripts/sortable.js:2 | JavaScript's `%`: the remainder is smaller in magnitude than the divisor and takes the sign of the dividend, and differs from the dividend by a multiple of the divisor |
| Sortable.Mod | scripts/sortable.js:1-3 | `mod` is `NaN` exactly for a zero divisor; for a positive divisor it is the mathematical remainder in `[0, n)`, so -1 maps to `n - 1` and positions are kept; for any non-zero divisor the result is congruent to `x` |
| Sortable.ModCongruent | scripts/sortable.js:2 | `(x % n + n) % n` differs from `x` by a multiple of `n` |
| Sortable.RemoveAnimation | scripts/sortable.js:4-6 | none of the four animation classes remains, and every other class keeps its membership |
| Sortable.Animate | scripts/sortable.js:38-43 | after `removeAnimation` and one `add`, the chosen class is the only animation class; every other class is kept |
| Sortable.OnItemDragStart | scripts/sortable.js:13-16 | the item gains `dragging` and keeps every other class |
| Sortable.OnItemDragEnd | scripts/sortable.js:18-20 | the item loses `dragging` and `out` and keeps every other class |
| Sortable.OnAnimationEnd | scripts/sortable.js:21 | an ended animation leaves no animation class and keeps every other class |
| Sortable.Find | scripts/sortable.js:25-26 | `indexOf` returns the first position holding the node, or -1 exactly when the node is absent |
| Sortable.InsertBefore | scripts/sortable.js:44 | after `insertBefore` the node occurs once, directly before the reference node, or last without one; the other nodes keep their relative order; the multiset of nodes is the old one without the moved node, plus the moved node |
| Sortable.InsertBeforePermutes | scripts/sortable.js:44 | moving a node already in the list is a permutation of the list |
| Sortable.DraggingIndex | scripts/sortable.js:25 | the dragged item's index is its position, or the item count when it is in another list |
| Sortable.SiblingIndex | scripts/sortable.js:26 | the sibling's index is its position, or the item count when there is no sibling |
| Sortable.AnimateRange | scripts/sortable.js:27-40 | the animation loop changes no identity, touches only the items between the two indices, and leaves every non-animation class alone |
| Sortable.MoveWithAnimation | scripts/sortable.js:24-47 | after the move the list still holds each node once, the dragged item is in it, and the other nodes keep their order |
| Sortable.InsertPositionIndex | scripts/sortable.js:25-44 | the insertion point, counted without the dragged item, is the sibling's old index, one less when the dragged item stood before the sibling |
| Sortable.MoveAnimatesExactlyTheShifted | scripts/sortable.js:24-47 | every other item that moves one place down carries exactly `move-down`, every one that moves up exactly `move-up`, and an item that keeps its place keeps its classes; no item moves further |
| Sortable.MovePlacesDragged | scripts/sortable.js:24-47 | the dragged item ends directly before the sibling, or last; it carries `insert-up` when it ends above its old place and `insert-down` otherwise, and no `out`; the list grows exactly when the item came from elsewhere |
| Sortable.FindNext | scripts/sortable.js:60-63 | the sibling found is the first item that is not being dragged and whose middle is at or below the pointer; none is found only when no item qualifies |
| Sortable.OnDragOver | scripts/sortable.js:53-74 | the list is left alone exactly when the found sibling already follows the dragged item and the item is not `out`; a reorder announces `movetonewlist` exactly when the item comes from another list |
| Sortable.DragOverPlacesBeforeFirstQualifying | scripts/sortable.js:53-74 | after a reordering `dragover` the dragged item sits directly before the first qualifying sibling, or last when no sibling qualifies |
| Sortable.DragOverKeepsOrder | scripts/sortable.js:53-74 | a reordering `dragover` keeps the other items in their relative order |
| Sortable.CounterBalance | scripts/sortable.js:78-84 | with no `dragstart` in between, the counter moves by the number of `dragenter`s minus the number of `dragleave`s |
| Sortable.CounterSinceStart | scripts/sortable.js:78-84 | after a `dragstart`, the counter is the number of `dragenter`s minus the number of `dragleave`s since it |
| Sortable.OnDragLeave | scripts/sortable.js:83-90 | the counter drops by one; exactly when it reaches zero, the dragged item is moved to the end of the list and marked `out`, and the other items keep their order |
| Sidebar.FirstSelected | scripts/sidebar.js:3 | `querySelector(".item.selected")` finds the first selected item, and nothing exactly when no item is selected |
| Sidebar.DeselectFirst | scripts/sidebar.js:14-17 | only the first selected item is deselected; with at most one selected, none remains |
| Sidebar.OnItemClick | scripts/sidebar.js:2-12 | the clicked item's `selected` flips; no other unselected item changes; no class other than `selected` changes; the preview is told to scroll exactly when the catalogue item ends up selected |
| Sidebar.ClickKeepsSingleSelection | scripts/sidebar.js:2-12 | with at most one item selected before a click, at most one is selected after: the clicked item when it was not selected, none when it was |
| Sidebar.MovePanel | scripts/sidebar.js:18 | `appendChild(getElementById(ref))` fails exactly when no panel has that id; otherwise the panel ends last in the destination and is gone from the source, and no panel is lost or duplicated |
| Sidebar.MovePanelKeepsOthers | scripts/sidebar.js:18 | moving one panel leaves every other panel in the sidebar that held it |
| Sidebar.OnMoveToNewList | scripts/sidebar.js:13-19 | a selected item dragged in deselects the destination's selected item; its panel moves last into the destination and leaves the source; when no panel has that id the deselection stays and both sidebars keep their panels; the lists keep their items and no panel is lost or duplicated |
| Sidebar.MoveKeepsSingleSelection | scripts/sortable.js:24-47 | moving an item keeps at most one item of the list selected, when the moved item is the only selected one |
| Sidebar.DragIntoOtherListKeepsSingleSelection | scripts/sidebar.js:13-19 | because `movetonewlist` deselects first, a reordering `dragover` that brings an item into the other sidebar's list keeps that list's selection single, whether or not the item's panel exists |
| Sidebar.DragLeaveIntoOtherListCanDoubleSelect | scripts/sortable.js:83-89 | the `dragleave` path deselects nothing: when the shared counter reaches zero on a list that does not hold the dragged item, a selected dragged item is appended beside the list's own selected item, and the list ends with two selected items |
| Sidebar.DropUnit | scripts/sidebar.js:37-40 | `slice(0, -2)` drops the last two characters, leaving a prefix |
| Sidebar.PxRoundTrip | scripts/sidebar.js:45-49 | a width written as `${n}px` reads back through `slice(0, -2)` and `parseInt` as `n` |
| Sidebar.LeftBarMove | scripts/sidebar.js:36-49 | the left bar changes only the left panel width: under its guard it writes `${clientX - slw}px` with `slw` the list width as read, and nothing changes when the guard fails (or a width is `NaN`) |
| Sidebar.RightBarMove | scripts/sidebar.js:50-64 | the right bar changes only the right panel width: under its guard it writes `${bodyWidth - clientX - slw}px`, and nothing changes when the guard fails |
| Sidebar.LeftBarWidth | scripts/sidebar.js:45-49 | when the widths read as `slw` and `rpw` and the guard holds, the left width the bar writes reads back as `clientX - slw`, and is below `bodyWidth - 2*slw - rpw` |
| Sidebar.RightBarWidth | scripts/sidebar.js:59-63 | when the widths read as `slw` and `lpw` and the guard holds, the right width the bar writes reads back as `bodyWidth - clientX - slw`, and is below `bodyWidth - 2*slw - lpw` |
| Sidebar.OnBarMouseMove | scripts/sidebar.js:33-66 | a move over a bar that is not pressed changes nothing; the list width never changes; each bar changes only its own side's width |
| Sidebar.BarPressedBetweenDownAndUp | scripts/sidebar.js:25-35 | `_clicked` holds exactly between a `mousedown` and the next `mouseup`, and an unpressed bar that sees no `mousedown` never changes the widths |
| Sidebar.MovePanelsKeepsPlaced | scripts/sidebar.js:73-76 | a panel already in the left sidebar stays there whatever panels are moved after it |
| Sidebar.MovePanelsFails | scripts/sidebar.js:73-76 | moving the panels of the right list fails exactly when one of them is missing |
| Sidebar.MovePanelsKeepsPanels | scripts/sidebar.js:73-76 | moving the panels of the right list between the sidebars loses and duplicates none |
| Sidebar.MovePanelsPlacesEach | scripts/sidebar.js:73-76 | when the move succeeds, every panel it names ends in the left sidebar and not in the right |
| Sidebar.MovePanelsPlaces | scripts/sidebar.js:73-76 | when the move succeeds, every panel of the right list ends in the left sidebar and none in the right, and no panel is lost or duplicated |
| Sidebar.MergeRightIntoLeft | scripts/sidebar.js:71-76 | the left list becomes the left items followed by the right items, in order; the right list is emptied; every right item's panel ends in the left sidebar; no panel is lost; it fails exactly when some item names a missing panel |
| Sidebar.OnResize | scripts/sidebar.js:69-81 | from width 769 up nothing changes; below it both sidebars are merged into the left one and then no item of the left list is selected, with every other class kept |
| PageEvents.SwitchState | scripts/events.js:6-13 | the result is always `default` or `only-preview`, and it is `only-preview` exactly when the state was `default` |
| PageEvents.SwitchStateTwice | scripts/events.js:10-12 | switching twice restores a valid state, turns any other value into `only-preview`, and three switches equal one |
| PageEvents.AddExpanders | scripts/events.js:18-35 | every element keeps its classes; a branch gains exactly one child and any other element none |
| PageEvents.AddExpandersWellExpanded | scripts/events.js:19-33 | on a document without expanders, every `.nav-tree-item._branch` ends with exactly one expander, placed first, and no other element gets one |
| PageEvents.StripAddExpanders | scripts/events.js:18-35 | removing the expanders again gives back the original document: the handler adds expanders and nothing else |
| PageEvents.OnExpanderClick | scripts/events.js:25-31 | a click flips the element's `_opened` and changes nothing else about it |
| PageEvents.OnExpanderClickTwice | scripts/events.js:25-31 | two clicks leave the element as it was |

## Left out

- Requests, `alert`, the markdown renderer (`marked`) and the highlighter (`hljs.highlightBlock`) are not modelled. They enter as parameters: the request's state, status and text; the rendered `code` elements; a highlighting function.
- `createCatalogue`, called at the end of `loadMdFileToElement`, is not part of this model. Its call appears only as a `RebuildCatalogue` effect.
- `autoLoadMdFile` and the `window.onload`/`load` registrations are left out: each only loops over elements, calling the modelled handlers.
- `btn_click` in scripts/loadnotes.js is a leftover that sets an unused CSS variable.
- The `maxNumWidth`/`flexBasis` sizing of line numbers is left out, because it depends on rendered layout (`getBoundingClientRect`).
- The avatar's position and colour are left out for the same reason; only its content is modelled.
- scripts/scrollbar.js and scripts/message.js are left out: floating-point layout and timer-driven toasts.
- `Text.ParseInt`: decimal only, with the complete ECMAScript white space. The `0x` prefix of `parseInt` is not modelled, because the widths it reads are written as decimal `${n}px`.
- `Text.ParseIntOfPadded`: numbers are unbounded integers, so the digits read give their exact value. JavaScript rounds a value above 2^53 to the nearest double. The widths read are pixel counts, far below that.
- `Text.ParseIntOfPaddedSigned`: the same unbounded reading, after a sign.
- `Text.ParseIntOfIntToString`: `IntToString` is `${i}` only for `|i| < 1e21`. From there on JavaScript writes an exponent (`1e+21`), which `parseInt` reads as 1. The model's decimal text and round trip hold for every integer; the scripts only write pixel widths.
- `Sidebar.PxRoundTrip`: inherits the same range gap: `${n}px` reads back as `n` in JavaScript only for `|n| < 1e21`.
- `Sidebar.LeftBarWidth`: the read-back rests on `PxRoundTrip`, so the same range applies.
- `Sidebar.RightBarWidth`: the same, for the right width.
- `Sortable.OnItemDragStart`: the zero-delay `setTimeout` is modelled as if it fired at once.
- The `dragover`/`dragleave` handlers assume `querySelector(".dragging")` finds the dragged item. A `null` item, which makes them throw, is not modelled.
- `childElementCount` of a sortable list is taken to equal its number of `.item` children.
- Pointer and layout coordinates (`pageY`, `clientX`, `offsetTop`, `offsetHeight`, `clientWidth`, `innerWidth`) are integers. The halving in `offsetHeight / 2` is compared exactly, as `2*pageY <= 2*offsetTop + offsetHeight`.
- Panel ids are assumed unique in the document (`Unique` in the requires of the panel operations), as `getElementById` assumes.
- `Sidebar.MergeRightIntoLeft`: the partial merge before `appendChild(null)` throws is not kept. The whole merge is `None`.
- `Sidebar.OnResize`: the same, for the merge it calls. The whole call is `None`.
- `Sidebar.DragIntoOtherListKeepsSingleSelection`: covers only the `dragover` path. The counter in scripts/sortable.js:9 is shared by both lists, so `dragleave` can reach zero on the list the item was just dragged into. `moveWithAnimation` then appends the item there with no `movetonewlist`, and the selection can double (`Sidebar.DragLeaveIntoOtherListCanDoubleSelect`).
- `PageEvents.AddExpandersWellExpanded`: stated for a document with no expander yet. A branch built by the `NavTree` widget already carries one (scripts/navtree.js:158), so running the load handler over it would add a second.
- `PageEvents.SwitchState`: a page without a `.wrapper[data-state]` element, where `switchState` throws, is not modelled.
- `CodeLines.LowerAscii`: `toLowerCase` is modelled on ASCII letters only, since it is only applied to tag names.
- `CodeLines.NumberLines`: each row's markup is taken to be its segment verbatim. `code.innerHTML = allLines[i - 1]` (scripts/loadresource.js:79) re-parses the segment, so a highlighter element that spans several lines is closed at the end of each row and a stray closing tag is dropped; joining the rows then gives back the markup only when no element spans a line break.
- `CodeLines.FillCode`: inherits the same simplification for the rows of every `pre` code block.
- `NavTree.CreateNavItem`: `NavTree.prototype.createNavItem` and `createNavList` are reassigned by every `new NavTree(...)` (scripts/navtree.js:121, 153), so items created through an older widget use the handlers of the newest one, which close over its `treeRoot`. The model gives every widget its own handlers. `createNotesNavTree` creates all its items synchronously right after its own constructor, with no other widget constructed in between, so for it the two agree.
