# NUV Yuva 2025 site scripts: a Dafny model

This project models the parts of the NUV Yuva 2025 festival site's browser scripts that keep state or compute something. It proves properties of that model in Dafny. The pieces are:

- **The committee pyramid builder** (`NUV_Yuva.js`). `run` reads the member cards of the first `.committee-grid` and groups the members by role, in first-seen order. It places each role on a level through the fixed role-to-level table; roles the table lacks go to level 6. It then replaces the grid with a `.committee-pyramid`. The pyramid has one row per occupied level, in ascending order. Within a row, the frames follow a stable sort by group size, largest first. Each frame holds one person per member, with an avatar showing `initialsOf(name)`.
  - Modules: `MemberText` (whitespace, `trim`, word splitting, `initialsOf`), `CommitteeRoster` (reading cards, grouping, levels), `RoleSort` (the stable sort), `CommitteePyramid` (the tree `run` builds, and the imperative builder proved to build it) and `CommitteePage` (the document-level guard and replacement).
- **The countdown** (`NUV_Yuva.js`), in module `Countdown`. Each tick splits the milliseconds left into days, hours, minutes and seconds, and shows them through `pad`.
- **The ribbon trail point queue** (`NUV_Yuva.js`), in module `RibbonTrail`. It is a class holding the sequence of points, the pointer flag and whether an animation frame is requested.
- **The two slideshow controllers**: `EsportsGallery` (`esports-gallery.js`) and `KhelaiyaGallery` (`khelaiya-gallery.js`). Each is a class over arrays of `active` flags, a current index and an auto-advance interval.
  - An interval is modelled as an id kept in the handle variable, plus the set of ids the browser still runs.
  - `SlideDeck` holds what the two controllers share: the wrap-around step, the "exactly one active" bookkeeping and the at-most-one-live-interval fact.
- **The liquid-glass button behaviours** (`assets/js/components/liquid-glass-button.js`), in module `LiquidGlassButton`. This is one class per button, with one method per event handler, plus the once-only initialiser over all buttons.

`Wrappers` (an `Option` type) and `Arith` (uniqueness of Euclidean division) are support modules.

### How the imperative code is modelled

- Where the source mutates state step by step, the model is a class or a method with loops and invariants:
  - `BuildPyramid` fills the `groups` and `rowsMap` dictionaries and appends rows, frames and people one at a time;
  - `Trail.TrimPoints` drains the front of the queue in a `while` loop;
  - `UpdateIndicators` marks the indicators in a loop;
  - `InitLiquidButtons` walks the buttons.
- Each such method's `ensures` ties its result or new state to a specification function: `Pyramid`, `Trimmed`, `ActiveExactlyAt`, `RunResult`, `Wrap`. The lemmas prove what the source promises about those functions.
- Timestamps, pointer coordinates, touch identifiers, key codes and the presence of page elements are method parameters.
- The esports transition that the source defers to `requestAnimationFrame` is one atomic step.

### Where the behaviour is not what one might expect

The model follows the code in each of these cases:

- **The pyramid's "already built" mark.** `run` tests the mark `data-pyramid="1"` on the `.committee-grid`, but it sets the mark on the new `.committee-pyramid`, which `run` never looks up. A second `run` on the same page does nothing only because no `.committee-grid` is left (`CommitteePage.RunTwice`, for a page with at most one grid). A page with a second grid gets it replaced on the second run.
- **Space in the slideshows.** Space pauses auto-advance and then calls `changeSlide(1)`, which restarts it. So after Space, auto-advance is running again.
- **`changeSlide` in the esports gallery.** It wraps any direction once: a result below 0 goes to the last slide, and one at or past the end goes to slide 0. This equals arithmetic modulo N only for directions of ±1 (`SlideDeck.WrapIsModular`).
- **`initialsOf` on whitespace.** A non-empty name made only of whitespace makes `initialsOf` throw, because `parts[0]` is undefined. Names reach `initialsOf` trimmed, so the builder never passes one (`MemberText.TrimmedInitialable`). `InitialsOf` therefore requires `Initialable`.
- **Khelaiya's pause.** `pauseAutoSlide` clears the interval but keeps its id in `slideshowInterval`. The esports gallery sets it to null.
- **Khelaiya without a `.slideshow-container`.** `initSlideshow` attaches the touch listeners to null and throws before it preloads anything (`KhelaiyaGallery.Slideshow.Init`).

## Model

| member | source | states |
|---|---|---|
| MemberText.IsSpace | NUV_Yuva.js:701 | the whitespace that `trim` (here) and `\s` (line 741) recognise: the ECMAScript WhiteSpace and LineTerminator code points (tab, line feed, vertical tab, form feed, carriage return, space, no-break space, the Unicode space separators, line and paragraph separators, byte order mark) |
| MemberText.TrimStart | NUV_Yuva.js:701 | leaves no leading whitespace, is no longer than the input, and keeps whether the text holds a visible character |
| MemberText.TrimStartDropsSpace | NUV_Yuva.js:701 | what `trimStart` leaves is a suffix of the input, and every character it dropped is whitespace |
| MemberText.TrimEnd | NUV_Yuva.js:701 | leaves no trailing whitespace, keeps the first character when anything is left, and keeps visibility |
| MemberText.TrimEndDropsSpace | NUV_Yuva.js:701 | what `trimEnd` leaves is a prefix of the input, and every character it dropped is whitespace |
| MemberText.Trim | NUV_Yuva.js:701-702 | the result starts and ends with a visible character, and is empty exactly when the text is all whitespace |
| MemberText.TrimIdempotent | NUV_Yuva.js:701-702 | trimming a trimmed text changes nothing |
| MemberText.WordAt | NUV_Yuva.js:741 | the maximal run of non-whitespace at the front: a prefix, all non-whitespace, ended by whitespace or the end of the text |
| MemberText.Words | NUV_Yuva.js:741 | `split(/\s+/).filter(Boolean)`: every part is non-empty and free of whitespace; there are parts exactly when the text is visible |
| MemberText.FirstVisible | NUV_Yuva.js:741 | the first character of a visible text that is not whitespace |
| MemberText.FirstWordStart | NUV_Yuva.js:741 | the first word begins with the text's first visible character |
| MemberText.UpperChar | NUV_Yuva.js:742-743 | `toUpperCase` on one ASCII character: lower-case letters move down by 32; everything else is unchanged |
| MemberText.Upper | NUV_Yuva.js:742-743 | upper-casing keeps the length and maps each character by `UpperChar` |
| MemberText.InitialsOf | NUV_Yuva.js:739-744 | `initialsOf`: at most two characters; empty exactly for the empty name; starts with the upper-cased first visible character; no lower-case ASCII letter |
| MemberText.TrimmedInitialable | NUV_Yuva.js:701-702 | every trimmed text is a name `initialsOf` can take without throwing |
| MemberText.WordsFront | NUV_Yuva.js:741 | a whole word followed by whitespace or the end is the first part, and splitting continues after it |
| MemberText.SingleWordInitials | NUV_Yuva.js:741-742 | a name holding one word, with any whitespace around it, gives that word's first two characters (or its one character), upper-cased |
| MemberText.WordsSkipSpace | NUV_Yuva.js:741 | leading whitespace adds no part to the split |
| MemberText.SpaceThenWord | NUV_Yuva.js:741 | whitespace followed by a whole word gives that word as the first part |
| MemberText.TwoWordsFront | NUV_Yuva.js:741 | two words with any whitespace before, between and after them are the first two parts of the split |
| MemberText.MultiWordInitials | NUV_Yuva.js:741-743 | a name with two or more words gives the first characters of its first two words, upper-cased |
| CommitteeRoster.ReadMember | NUV_Yuva.js:699-702 | the name read (the trimmed name element, or else the trimmed card text) is one `initialsOf` accepts; a card without a role element reads as role "Other" |
| CommitteeRoster.ReadRoster | NUV_Yuva.js:698-702 | one member per card, in document order, each read by `ReadMember` |
| CommitteeRoster.First | NUV_Yuva.js:703 | the position of the first member with a role: that member has it and no earlier one does |
| CommitteeRoster.Roles | NUV_Yuva.js:727 | `Object.keys(groups)`: at most one key per card, and the first key is the role of the first card |
| CommitteeRoster.RolesStep | NUV_Yuva.js:703 | one more card adds its role to the keys of `groups` exactly when the role is new |
| CommitteeRoster.RolesFacts | NUV_Yuva.js:703-704 | the keys of `groups` have no repeats, and they are exactly the roles some member has |
| CommitteeRoster.RolesOrder | NUV_Yuva.js:703-704 | the keys of `groups` come in the order of each role's first member |
| CommitteeRoster.MemberRole | NUV_Yuva.js:703 | each member's role is a key of `groups` |
| CommitteeRoster.Names | NUV_Yuva.js:703-704 | `groups[role]`: never longer than the roster, and headed by the first card's name when that card has the role |
| CommitteeRoster.NamesStep | NUV_Yuva.js:704 | one more card appends its name to its role's group and changes no other group |
| CommitteeRoster.NamesFacts | NUV_Yuva.js:703-704 | a group is empty exactly when no member has the role; it is never larger than the roster and holds only names `initialsOf` accepts |
| CommitteeRoster.Groups | NUV_Yuva.js:697-705 | the `groups` dictionary, each present role to its names: the first card's role is a key, and its group starts with that card's name |
| CommitteeRoster.GroupsReadable | NUV_Yuva.js:697-705 | every group of `groups` is non-empty and holds names `initialsOf` accepts |
| CommitteeRoster.MemberInGroup | NUV_Yuva.js:703-704 | every member's name is in the group of their role |
| CommitteeRoster.NoRoleIsOther | NUV_Yuva.js:702-704 | a card without a role element is grouped under "Other" |
| CommitteeRoster.GroupsPartition | NUV_Yuva.js:697-705 | the group sizes add up to the number of cards: every card lands in exactly one group |
| CommitteeRoster.GroupTotalStep | NUV_Yuva.js:704 | one more card adds one to the total of a set of distinct roles exactly when its role is among them |
| CommitteeRoster.LevelIn | NUV_Yuva.js:730 | the lookup `roleToLevel.hasOwnProperty(r) ? roleToLevel[r] : 6` over the table's entries; what it gives is stated by `LevelInFacts` |
| CommitteeRoster.LevelOf | NUV_Yuva.js:708-730 | a role's level under the fixed table: at most 6, and 0 for "President" |
| CommitteeRoster.LevelInFacts | NUV_Yuva.js:730 | the table lookup gives the level of an entry for the role when there is one, and 6 otherwise |
| CommitteeRoster.TableLevels | NUV_Yuva.js:708-724 | the table's first entry is ("President", 0), and every other entry is at a level from 1 to 5 |
| CommitteeRoster.LevelFacts | NUV_Yuva.js:708-730 | every level is at most 6; a role is at 6 exactly when it is not a key of the table; at 0 exactly when it is "President" |
| CommitteeRoster.RowRoles | NUV_Yuva.js:727-733 | `rowsMap[level]`: never longer than the list of present roles, and every role in it is at that level |
| CommitteeRoster.RowRolesStep | NUV_Yuva.js:729-732 | one more present role is appended to the row of its level, and no other row changes |
| CommitteeRoster.RowRolesFacts | NUV_Yuva.js:727-733 | `rowsMap[level]` holds exactly the present roles at that level, with no repeats |
| CommitteeRoster.RowRolesOccupied | NUV_Yuva.js:727-735 | a level is a key of `rowsMap` exactly when some present role is at it |
| CommitteeRoster.LevelsBelow | NUV_Yuva.js:735 | the occupied levels below a bound, ascending: at most one per level below the bound |
| CommitteeRoster.LevelsBelowFacts | NUV_Yuva.js:735 | scanning the levels below a bound lists the occupied ones, each once and ascending |
| CommitteeRoster.Levels | NUV_Yuva.js:735 | the sorted keys of `rowsMap`: strictly ascending, and exactly the occupied levels |
| RoleSort.Insert | NUV_Yuva.js:753 | inserting a role adds exactly that role (as a multiset) and one to the length |
| RoleSort.SortBySize | NUV_Yuva.js:753 | the sort is a permutation of the row's roles |
| RoleSort.WithSizeAppend | NUV_Yuva.js:753 | the roles of one size in a concatenation are those of each part, in order |
| RoleSort.InsertDescending | NUV_Yuva.js:753 | inserting into a row sorted largest-first keeps it sorted largest-first |
| RoleSort.InsertWithSize | NUV_Yuva.js:753 | inserting a role into a row sorted largest-first puts it behind every role of its own size, and the roles of every other size keep their order |
| RoleSort.SortBySizeSorted | NUV_Yuva.js:753 | the sort orders by group size, largest first, and is stable: the roles of each size keep their relative order |
| CommitteePyramid.PersonOf | NUV_Yuva.js:769-772 | a person shows the member's name and initials of at most two characters |
| CommitteePyramid.FrameOf | NUV_Yuva.js:755-776 | the frame of one role: labelled with the role, `crown` exactly at level 0, `compact` exactly when the group has more than three members, one person per member of the group |
| CommitteePyramid.RowOf | NUV_Yuva.js:746-778 | the row of one level: at that level, `top` as given, one frame per role at the level |
| CommitteePyramid.Pyramid | NUV_Yuva.js:735-781 | the rows `run` builds: one per occupied level, the first one `top` and at the lowest occupied level |
| CommitteePyramid.SortedRowMembers | NUV_Yuva.js:750-753 | the sorted row holds exactly the present roles at that level |
| CommitteePyramid.PyramidAt | NUV_Yuva.js:746-749 | there is one row per occupied level; row i is the row of the i-th level, and it is `top` exactly when i is 0 |
| CommitteePyramid.FrameRoles | NUV_Yuva.js:755-764 | the role labels of a row's frames, left to right |
| CommitteePyramid.RowFrameRoles | NUV_Yuva.js:750-755 | a row's frames follow the stable sort of its level's roles by group size |
| CommitteePyramid.PyramidRows | NUV_Yuva.js:735-749 | rows come in strictly ascending level order; every row is at an occupied level and every occupied level has a row; only the first row is `top` |
| CommitteePyramid.PyramidFrames | NUV_Yuva.js:755-774 | a role label is crowned exactly on level 0; a frame is compact exactly when its group has more than three members; its people are the group's members in roster order, each with the initials of their name |
| CommitteePyramid.RowRolesOfPyramid | NUV_Yuva.js:750-778 | a row has one frame per present role at its level, no role twice, in the order of the sort |
| CommitteePyramid.FramesAtTheirLevel | NUV_Yuva.js:746-781 | every frame's role is a present role, at the level of its row |
| CommitteePyramid.EveryRoleFramed | NUV_Yuva.js:746-781 | every present role has a frame in the row of its level |
| CommitteePyramid.RoleFramedOnce | NUV_Yuva.js:746-781 | no role has two frames anywhere in the pyramid |
| CommitteePyramid.SortedDistinct | NUV_Yuva.js:753 | sorting a row without repeats leaves it without repeats |
| CommitteePyramid.PyramidRowOrder | NUV_Yuva.js:752-753 | within a row, frames go by group size, largest first, and roles of equal size keep their first-seen order |
| CommitteePyramid.GroupMembers | NUV_Yuva.js:697-705 | the `groups` loop builds exactly the specified groups, and its keys in insertion order are the roles in first-seen order |
| CommitteePyramid.GroupStep | NUV_Yuva.js:703-704 | one card's step keeps "the dictionary holds the groups of the cards read so far" |
| CommitteePyramid.AbsentRoleNoNames | NUV_Yuva.js:703 | a role that is not yet a key has an empty group |
| CommitteePyramid.RowsByLevel | NUV_Yuva.js:727-733 | the `rowsMap` loop: its keys are the occupied levels, and each entry holds that level's roles in first-seen order |
| CommitteePyramid.SortedLevels | NUV_Yuva.js:735 | the levels `run` walks are the specified ascending occupied levels |
| CommitteePyramid.BuildFrame | NUV_Yuva.js:755-776 | the frame loop builds the specified frame of a role |
| CommitteePyramid.BuildRow | NUV_Yuva.js:746-778 | the row loop builds the specified row of a level |
| CommitteePyramid.AssembleRows | NUV_Yuva.js:746-781 | the rows loop builds exactly the specified pyramid |
| CommitteePyramid.BuildPyramid | NUV_Yuva.js:696-781 | the whole builder, from cards to rows, computes `Pyramid` of the roster read from the cards |
| CommitteePyramid.PyramidLength | NUV_Yuva.js:746 | the pyramid has as many rows as there are occupied levels |
| CommitteePage.FindGrid | NUV_Yuva.js:691 | `querySelector('.committee-grid')`: the first grid of the document, or none when there is no grid |
| CommitteePage.Skips | NUV_Yuva.js:690-694 | the early returns of `run`: no grid, a grid whose `data-pyramid` is "1", or a grid without member cards; `RunResult` leaves the document unchanged exactly in these cases |
| CommitteePage.RunResult | NUV_Yuva.js:690-694 | `run` keeps the document's length, and leaves it unchanged exactly when there is no grid, the grid is marked "1" or it has no cards |
| CommitteePage.RunReplacesGrid | NUV_Yuva.js:783-784 | otherwise the first grid is replaced by the pyramid of its cards marked "1", and every other element is unchanged |
| CommitteePage.GridCountReplace | NUV_Yuva.js:783 | replacing a grid by something else removes one grid |
| CommitteePage.NoGridCounted | NUV_Yuva.js:691-692 | the document has no grid exactly when the grid lookup finds none |
| CommitteePage.RunRemovesGrid | NUV_Yuva.js:783-784 | a `run` that does not return early leaves one grid fewer |
| CommitteePage.RunResultIs | NUV_Yuva.js:783-784 | a `run` that does not return early is a single update at the grid's position |
| CommitteePage.RunTwice | NUV_Yuva.js:692 | on a page with at most one grid, a second `run` changes nothing |
| CommitteePage.FindGridFirst | NUV_Yuva.js:691 | a scan from the front stops at the grid `querySelector` returns |
| CommitteePage.Page.constructor | NUV_Yuva.js:689-690 | the page holds the given document |
| CommitteePage.Page.Run | NUV_Yuva.js:690-694 | `run` on the page: its new document is `RunResult` of the old one |
| Countdown.Tick | NUV_Yuva.js:616-627 | "started" exactly when no time is left; otherwise hours < 24, minutes < 60 and seconds < 60, and the fields add back up to the whole seconds left |
| Countdown.SplitSeconds | NUV_Yuva.js:623-627 | the four fields of a number of seconds are in range and re-assemble it |
| Countdown.TickMonotone | NUV_Yuva.js:617-627 | as time passes the seconds shown never go up, and once started the countdown stays started |
| Countdown.DivMonotone | NUV_Yuva.js:623 | `Math.floor(diff / 1000)` never decreases as `diff` grows |
| Countdown.Digits | NUV_Yuva.js:17 | `String(n)`: at least one decimal digit, and at most two below 100 |
| Countdown.DigitChar | NUV_Yuva.js:17 | the digit character of a number below 10 |
| Countdown.Pad | NUV_Yuva.js:17 | `pad(n)`: all decimal digits, at least two of them, and exactly two below 100 |
| Countdown.DigitsRoundTrip | NUV_Yuva.js:17 | reading the digits of `String(n)` back gives n |
| Countdown.LeadingZero | NUV_Yuva.js:17 | a padding zero does not change the value |
| Countdown.PadRoundTrip | NUV_Yuva.js:17 | `pad(n)` reads back as n |
| Countdown.PadZeroFilled | NUV_Yuva.js:17 | `pad(n)` starts with '0' exactly when n is below 10 |
| Countdown.DigitsLeading | NUV_Yuva.js:17 | numbers of two or more digits have no leading zero |
| Countdown.Fields | NUV_Yuva.js:628-631 | nothing is written once the event has started; otherwise four decimal fields that read back as days, hours, minutes and seconds, the last three exactly two characters long |
| RibbonTrail.Trimmed | NUV_Yuva.js:1249-1254 | `trimPoints` leaves a suffix of at most 60 points whose oldest point is within 600 ms; every point it drops was too old or one too many when its turn came |
| RibbonTrail.TrimmedChronologicalIsFresh | NUV_Yuva.js:1249-1254 | on a trail in time order, every point left after trimming is at most 600 ms old, and the trail stays in time order |
| RibbonTrail.SuffixChronological | NUV_Yuva.js:1252 | dropping points from the front keeps the time order |
| RibbonTrail.FrontFresh | NUV_Yuva.js:1251 | on a trail in time order a fresh oldest point makes every point fresh |
| RibbonTrail.AppendChronological | NUV_Yuva.js:1244 | pushing a point no older than the last keeps the time order |
| RibbonTrail.TrimIdempotent | NUV_Yuva.js:1249-1254 | trimming again at the same time drops nothing more |
| RibbonTrail.TrimKeepsFresh | NUV_Yuva.js:1249-1254 | a trail of at most 60 fresh points is left as it is |
| RibbonTrail.Trail.constructor | NUV_Yuva.js:1206-1208 | the trail starts empty, with the pointer inactive and no frame requested |
| RibbonTrail.Trail.ScheduleDraw | NUV_Yuva.js:1261-1264 | afterwards a frame is requested, whether or not one was before; the points and the pointer flag are unchanged |
| RibbonTrail.Trail.ResetTrail | NUV_Yuva.js:1233-1237 | exactly one point is left, the pointer is active and a frame is requested |
| RibbonTrail.Trail.AddPoint | NUV_Yuva.js:1239-1247 | an inactive pointer restarts the trail from the point; otherwise the point is pushed and the trail trimmed; a trail in time order stays in time order and fresh |
| RibbonTrail.Trail.TrimPoints | NUV_Yuva.js:1249-1254 | the `while`/`shift` loop leaves exactly `Trimmed` of the old points, hence at most 60 |
| RibbonTrail.Trail.StopTrail | NUV_Yuva.js:1256-1259 | the pointer becomes inactive, the points stay and a frame is requested |
| RibbonTrail.Trail.Draw | NUV_Yuva.js:1266-1275 | one animation frame trims the trail and requests the next frame exactly while the pointer is active or points are left |
| SlideDeck.Wrap | esports-gallery.js:78-86 | the new index is in range; a step inside the deck is taken as is, below 0 it goes to the last slide, at or past the end to slide 0 |
| SlideDeck.WrapIsModular | khelaiya-gallery.js:60-67 | for a step of +1 or -1 from a valid index, the wrap is `(current + direction) mod N` |
| SlideDeck.RepeatIsModular | esports-gallery.js:78-86 | k steps of +1 (or -1) land on `(start + k*direction) mod N` |
| SlideDeck.ModAddStep | esports-gallery.js:78-86 | adding to a residue or to its number gives the same residue |
| SlideDeck.CycleCloses | esports-gallery.js:78-86 | N steps of +1, or N steps of -1, come back to the start |
| SlideDeck.CountActive | esports-gallery.js:74-88 | the number of set flags is at most the number of flags |
| SlideDeck.ExactlyOneActive | esports-gallery.js:74-88 | exactly one flag is set exactly when the flags are set at one index and nowhere else |
| SlideDeck.NoneActive | esports-gallery.js:74-88 | no flag is set exactly when the count is zero |
| SlideDeck.MoveActive | esports-gallery.js:74-88 | clearing the old slide and setting the new one leaves exactly one active slide, the new one |
| SlideDeck.AtMostOneLive | esports-gallery.js:141-157 | when the live intervals are at most the one whose id is held, at most one interval is live |
| EsportsGallery.SwipeStep | esports-gallery.js:47-60 | a horizontal travel of at most 50 does nothing; less than -50 advances; more than 50 goes back |
| EsportsGallery.Abs | esports-gallery.js:51 | `Math.abs` |
| EsportsGallery.Slideshow.constructor | esports-gallery.js:11-15 | the queried deck and indicators, index 0, no interval, no image flagged as preloaded |
| EsportsGallery.Slideshow.Init | esports-gallery.js:11-65 | an empty deck changes nothing and nothing is started; otherwise the indicators are marked, exactly one new interval runs, and the requests are exactly those of `preloadImages`: the first slide's image when not loaded, then each of the next two slides' images that needs preloading |
| EsportsGallery.Slideshow.UpdateIndicators | esports-gallery.js:128-138 | afterwards the indicator at the current index is active and every other indicator is inactive |
| EsportsGallery.Slideshow.StartAutoSlide | esports-gallery.js:141-150 | the interval previously held is cleared, so exactly one interval, the new one, is live |
| EsportsGallery.Slideshow.PauseAutoSlide | esports-gallery.js:152-157 | no interval is live and the handle is null |
| EsportsGallery.Slideshow.ResetAutoSlide | esports-gallery.js:159-162 | pause then start: exactly one new interval is live |
| EsportsGallery.Slideshow.ChangeSlide | esports-gallery.js:68-108 | nothing on an empty deck; otherwise the index wraps, the old slide is cleared and the new one set, exactly one active slide stays exactly one, the indicators follow, the next slide is requested when it needs preloading, and auto-advance restarts |
| EsportsGallery.Slideshow.GoToSlide | esports-gallery.js:111-125 | nothing at all (no move, no timer reset) for an index outside the deck or equal to the current one; otherwise the index becomes it and auto-advance restarts |
| EsportsGallery.Slideshow.HandleKeyboard | esports-gallery.js:165-188 | ArrowLeft steps -1; ArrowRight and Space step +1 (Space pausing first), with exactly the current indicator active and the next slide requested when it needs preloading; Escape only pauses; those four call `preventDefault`; other keys and an empty deck change nothing; exactly one active slide stays exactly one |
| EsportsGallery.Slideshow.HandleSwipe | esports-gallery.js:47-60 | a short swipe or an empty deck changes nothing and requests nothing; a longer one steps by `SwipeStep`, leaves exactly the current indicator active, restarts auto-advance and requests the next slide when it needs preloading; exactly one active slide stays exactly one |
| EsportsGallery.Slideshow.AutoAdvance | esports-gallery.js:145-149 | each interval tick advances by one on a non-empty deck, leaves exactly the current indicator active, restarts auto-advance and requests the next slide when it needs preloading; exactly one active slide stays exactly one |
| EsportsGallery.Slideshow.PreloadImages | esports-gallery.js:191-221 | requests the first slide's image when not loaded, then the next two slides' images that need preloading |
| EsportsGallery.Slideshow.PreloadRemaining | esports-gallery.js:223-237 | the deferred pass requests every other slide whose image needs preloading, each once, in deck order |
| EsportsGallery.Slideshow.ImageLoaded | esports-gallery.js:213-215 | a completed preload flags its image, which is then never requested again |
| EsportsGallery.Slideshow.NeedsPreload | esports-gallery.js:96 | the test for requesting a slide's image, also used at lines 210 and 228: the slide has an image, it is not `complete`, and it has no `data-preloaded` flag |
| EsportsGallery.Slideshow.NextPreload | esports-gallery.js:91-103 | the request after a move is the slide after the current one, and only when its image needs preloading |
| EsportsGallery.Slideshow.InitialRequests | esports-gallery.js:191-221 | at most three requests, each for a slide inside the deck: slide 0 with an image not loaded, or a slide whose image needs preloading |
| KhelaiyaGallery.SwipeCalls | khelaiya-gallery.js:38-47 | +1 when the touch ends more than 50 to the left, -1 when more than 50 to the right; the two never both happen |
| KhelaiyaGallery.SwipeRulesAgree | khelaiya-gallery.js:38-47 | khelaiya's two tests and esports' single test decide the same step for every touch |
| KhelaiyaGallery.Slideshow.constructor | khelaiya-gallery.js:3-8 | the deck and indicators as queried when the script loads, index 0, no interval |
| KhelaiyaGallery.Slideshow.Init | khelaiya-gallery.js:11-51 | the indicators are marked and exactly one new interval runs; the images are preloaded only on a page with a slideshow container |
| KhelaiyaGallery.Slideshow.Unloaded | khelaiya-gallery.js:78 | the test for requesting a slide's image, also used at line 175: the slide has an image and it is not `complete` |
| KhelaiyaGallery.Slideshow.NextRequests | khelaiya-gallery.js:169-181 | at most two requests, each for a slide whose image is not loaded |
| KhelaiyaGallery.Slideshow.NextPreload | khelaiya-gallery.js:73-83 | the request after a move is the slide after the current one, and only when its image is not loaded |
| KhelaiyaGallery.Slideshow.PreloadImages | khelaiya-gallery.js:154-182 | one eager request for every slide that has an image, in deck order, then the next two slides whose images are not loaded |
| KhelaiyaGallery.Slideshow.UpdateIndicators | khelaiya-gallery.js:104-112 | exactly the indicator at the current index is active afterwards |
| KhelaiyaGallery.Slideshow.StartAutoSlide | khelaiya-gallery.js:115-120 | the interval whose id is held is cleared before a new one is created, so exactly one is live |
| KhelaiyaGallery.Slideshow.PauseAutoSlide | khelaiya-gallery.js:122-124 | no interval is live, and the id stays in the variable |
| KhelaiyaGallery.Slideshow.ResetAutoSlide | khelaiya-gallery.js:126-129 | pause then start: exactly one new interval is live |
| KhelaiyaGallery.Slideshow.ChangeSlide | khelaiya-gallery.js:54-87 | on a non-empty deck, leaving an index that has an indicator: the index wraps, the active slide moves, exactly the new index's indicator is active, the next slide is requested exactly when its image is not loaded, and auto-advance restarts; exactly one active slide stays exactly one |
| KhelaiyaGallery.Slideshow.GoToSlide | khelaiya-gallery.js:90-101 | nothing changes unless the index is inside the deck and not the current one; then the index becomes it, the indicators follow and auto-advance restarts |
| KhelaiyaGallery.Slideshow.HandleKeyboard | khelaiya-gallery.js:132-151 | the arrows step -1/+1 and Space pauses then steps +1, each calling `preventDefault`, with exactly the current indicator active and the next slide requested when its image is not loaded; Escape only pauses, without `preventDefault`; other keys change nothing |
| KhelaiyaGallery.Slideshow.HandleSwipe | khelaiya-gallery.js:38-47 | the swipe makes the `changeSlide` call `SwipeCalls` gives, with its indicator state and preload request, or none and then nothing changes |
| KhelaiyaGallery.Slideshow.AutoAdvance | khelaiya-gallery.js:117-119 | each interval tick advances by one, leaves exactly the current indicator active, restarts auto-advance and requests the next slide when its image is not loaded |
| LiquidGlassButton.ToggledAria | assets/js/components/liquid-glass-button.js:137-140 | the value a click writes is "true" or "false", and it is "true" exactly when the old value was not "true" |
| LiquidGlassButton.TwoClicks | assets/js/components/liquid-glass-button.js:136-141 | two clicks give back "true" or "false"; any other value settles on "false" |
| LiquidGlassButton.Button.constructor | assets/js/components/liquid-glass-button.js:45-47 | a button as found in the markup: not bound, not pressed, no touch tracked |
| LiquidGlassButton.Button.InitButtonBehaviors | assets/js/components/liquid-glass-button.js:45-142 | fresh press state; a non-native button without `tabindex` becomes focusable with role "button"; a toggle button without `aria-pressed` gets "false" |
| LiquidGlassButton.Button.PointerDown | assets/js/components/liquid-glass-button.js:50-57 | only the main button (0) presses; any other leaves the state unchanged; the recorded touch and the attributes stay as they were |
| LiquidGlassButton.Button.PointerUp | assets/js/components/liquid-glass-button.js:59-62 | always leaves the button unpressed; the recorded touch, `aria-pressed`, `tabindex`, `role` and the initialized flag stay as they were |
| LiquidGlassButton.Button.PointerCancel | assets/js/components/liquid-glass-button.js:64-67 | always leaves the button unpressed |
| LiquidGlassButton.Button.PointerLeave | assets/js/components/liquid-glass-button.js:69-74 | releases a pressed button and leaves an unpressed one untouched |
| LiquidGlassButton.Button.TouchStart | assets/js/components/liquid-glass-button.js:77-81 | records the first touch's identifier and presses |
| LiquidGlassButton.Button.TouchEnd | assets/js/components/liquid-glass-button.js:83-91 | releases exactly when the recorded touch is among the changed touches; otherwise nothing changes |
| LiquidGlassButton.Button.TouchCancel | assets/js/components/liquid-glass-button.js:93-96 | always leaves the button unpressed |
| LiquidGlassButton.Button.KeyDown | assets/js/components/liquid-glass-button.js:99-107 | Space or Enter presses and calls `preventDefault`; pressing again, or any other key, changes nothing |
| LiquidGlassButton.Button.KeyUp | assets/js/components/liquid-glass-button.js:109-121 | Space or Enter releases and calls `preventDefault`; a synthetic click happens exactly when the button was pressed and is not a native BUTTON, and it toggles `aria-pressed` on a toggle button |
| LiquidGlassButton.Button.Click | assets/js/components/liquid-glass-button.js:136-141 | a click flips `aria-pressed` on a toggle button and changes nothing else |
| LiquidGlassButton.InitLiquidButtons | assets/js/components/liquid-glass-button.js:28-39 | every button ends flagged as initialized; a button already flagged is untouched; each other button is bound exactly once, unpressed with no touch recorded, with the `tabindex`/`role` default on a non-native button that had no `tabindex` and the `aria-pressed` default on a toggle button; so repeated calls never bind a button twice |

## Left out

- `assets/js/components/button-splash.js`: CSS-variable updates from floating-point pointer geometry and a shared animation-frame loop; it has no state logic to prove.
- Loading-screen progress, confetti and particle bursts, tilt, parallax, spotlight and ripple effects in `NUV_Yuva.js` and the button script: floating-point geometry, `Math.random` and canvas drawing.
- The ribbon's canvas drawing (the gradient, the curve through the midpoints, the end dot): `Trail.Draw` keeps the trimming and the request of the next frame.
- `createRipple` in the pointerdown handler: DOM and geometry only.
- Video play promise handling, the IntersectionObserver and MutationObserver wiring, and the network side of image preloading. The model returns the slide indices whose images are requested, in both galleries, and keeps the esports `data-preloaded` flag.
- Image loading by the browser: each slide image's `complete` is fixed when the deck is built. An esports image the browser finished loading by itself is therefore requested again by `PreloadRemaining` unless `ImageLoaded` was called for it.
- Khelaiya's `onload` handler, which sets `data-preloaded`: nothing in khelaiya reads the flag.
- `observeDOMChanges` in the button script (liquid-glass-button.js:183-199) is not modelled. It calls `initButtonBehaviors` directly on each added `.liquid-btn` or `.metal-btn` element and on its matching descendants, without testing or setting `data-initialized`. So a button added after load can be bound more than once: by a later call of `initLiquidButtons`, or by being inserted again. A toggle button bound twice flips `aria-pressed` twice on each click. By `TwoClicks`, a value of "true" or "false" then never changes, and any other value becomes "false" on the first click and stays there. The at-most-once binding in `Button.Valid` and `InitLiquidButtons` covers the bindings `initLiquidButtons` makes, and no others.
- Timers, `requestAnimationFrame` and `DOMContentLoaded`: an interval is an id, and each callback (a tick, an animation frame, the deferred preload) is a method the caller invokes. `readyState` deferral is not modelled.
- The reveal animation of the pyramid (`setTimeout` at 120 + 90·i ms) and the markup around each person (`innerHTML` without escaping): presentation only; `Person` keeps the initials and the name.
- The countdown's `clearInterval` and banner markup once the event has started: `Tick` returns `Started`, and the fixed event date is a parameter.
- The esports `passive: true` keydown listener, whose `preventDefault` browsers ignore: `HandleKeyboard` returns whether `preventDefault` is called.
- The native activation of a BUTTON element on Space or Enter: the model states only the handlers' own synthetic click.
- Coordinates and key codes are mathematical integers and strings; timestamps in the trail are reals; nothing models floating-point rounding.
- The page document: a flat sequence of the elements `run` can find or creates.
- `CommitteeRoster.Groups`: the `groups` object is a map plus its key order (`Roles`). ECMAScript lists integer-like keys (a role named "2", say) before the others, while the model keeps first-seen order for every key. A role named after an `Object.prototype` member (such as "constructor") makes `groups[role].push` throw. The model groups it like any other role.
- `CommitteeRoster.LevelOf`: the `roleToLevel` object is its list of entries, and `hasOwnProperty` is a search of that list.
- `CommitteePyramid.SortedLevels`: it scans the levels 0 to 6 in ascending order instead of sorting `Object.keys(rowsMap)`. The result is the same, because every key is a level from 0 to 6.
- `MemberText.InitialsOf`: `toUpperCase` is modelled for ASCII letters only. A Dafny `char` is a Unicode scalar value, while `slice(0, 2)` and `[0]` count UTF-16 code units. So a name whose first characters lie outside the Basic Multilingual Plane (an emoji, say), where the source splits a surrogate pair, is outside the model.
- `KhelaiyaGallery.Slideshow.ChangeSlide`: it requires a non-empty deck and an indicator at the index being left. On an empty deck `slides[currentSlide]` is undefined, and a move from an index without an indicator fails on `indicators[currentSlide]` (khelaiya-gallery.js:56-57), so the source throws; the model does not describe the exception. With fewer indicators than slides, a move from an index that has one completes, because `updateIndicators` loops only over the indicators that exist.
- `KhelaiyaGallery.Slideshow.GoToSlide`: the same requirement, but only for an index inside the deck that is not the current one; any other index changes nothing (khelaiya-gallery.js:91).
- `KhelaiyaGallery.Slideshow.HandleKeyboard`: the same requirement, only for the arrow keys and Space, which call `changeSlide`.
- `KhelaiyaGallery.Slideshow.HandleSwipe`: the same requirement, only for a swipe long enough to call `changeSlide`.
- `KhelaiyaGallery.Slideshow.AutoAdvance`: the same requirement on every tick.
