# Heading glitch and GuessTheWord — a Dafny model

This project models two pieces of a personal website.

**The heading "scramble appear" effect** (`public/scripts/heading-glitch.js`).
A heading marked for the effect has its last few words wrapped in a span. The span
aims at 15 to 30 characters. A heading of several words is never wrapped whole; a
heading of a single word of at most 30 characters is. When the heading scrolls into view, the words
are first shown as random glyphs and then revealed from left to right:

- a window of scrambled glyphs moves across the text;
- one clock regenerates the glyphs;
- a second clock, driven by animation frames, redraws the reveal;
- a safety timeout restores the plain text once the duration has passed.

The model covers each part of this:

- the text-span selection (`SpanSelector`);
- the glyph scrambler (`Scrambler`);
- the speed-to-tick mapping (`Timing`);
- the per-mode partition of the text into revealed, scrambled and hidden parts, and the
  HTML it produces (`Compositor`, with `Escape` for HTML escaping);
- the animation controller, a class whose two clocks are flags and whose frames and
  ticks are method calls (`Controller`);
- the per-heading trigger state machine for entering and leaving the viewport, with
  its safety timeouts (`Trigger`).

JavaScript numbers become exact reals, with `NaN` as a separate value (`JsMath`).

**The GuessTheWord game** (`projects/GuessTheWord/main.js`). About half of a word's
letter tiles are hidden at random, and the player types the missing letters. The
model covers:

- the score counters (`gameState`), with `updateGameState`, `reset` and
  `checkEndOfGame`;
- the zero padding of the displayed counters;
- the comparison of the typed letters against the answer in `check`;
- how `setWord` picks the hidden tiles and builds the answer.

The random draws are given as input: a sequence of numbers in [0, 1).

Three facts of the code that the model makes explicit:

- The glyph alphabet has 61 characters (`Scrambler.AlphabetLiteral`).
- The default speed 75 gives a tick of exactly 52 ms. So the seven-letter heading
  "SYSTEMS" animates for 884 ms, and its safety timeout fires at 944 ms
  (`Trigger.SystemsTimings`).
- The safety timeout never clears the heading's running flag. Only the leave event
  clears it, so a timeout left over from an earlier run stops a later run before its
  end (`Trigger.StaleTimeout`).

## Model

| member | source | states |
|---|---|---|
| JsMath.OrDefault | public/scripts/heading-glitch.js:130 | `Number(x) \|\| d`: NaN and 0 give the default, any other number is kept |
| JsMath.Clamp | public/scripts/heading-glitch.js:15-17 | for lo <= hi the result lies in [lo, hi]; a value inside the range is unchanged, one below gives lo, one above gives hi |
| JsMath.ClampReal | public/scripts/heading-glitch.js:15-17 | the same four facts for real-valued clamp |
| JsMath.Lerp | public/scripts/heading-glitch.js:19-21 | t = 0 gives a and t = 1 gives b |
| JsMath.LerpBetween | public/scripts/heading-glitch.js:19-21 | for t in [0, 1] the interpolant lies between a and b, in either order of a and b |
| JsMath.Floor | public/scripts/heading-glitch.js:137 | Math.floor: the greatest integer not above x |
| JsMath.Ceil | public/scripts/heading-glitch.js:142 | Math.ceil: the least integer not below x |
| Escape.ReplaceAll | public/scripts/heading-glitch.js:25-29 | a global replace leaves no occurrence of the replaced character when the replacement does not contain it |
| Escape.ReplaceAllAppend | public/scripts/heading-glitch.js:25-29 | a global replace distributes over concatenation |
| Escape.EscapeHtmlChar | public/scripts/heading-glitch.js:23-30 | each of the five special characters becomes its entity; every other character is kept |
| Escape.EscapeHtmlAppend | public/scripts/heading-glitch.js:23-30 | escaping distributes over concatenation |
| Escape.EscapeHtmlIsPerChar | public/scripts/heading-glitch.js:23-30 | the five chained replaces equal escaping each character on its own, so a later replace never rewrites an earlier entity |
| Escape.EscapeHtmlSafe | public/scripts/heading-glitch.js:23-30 | the escaped text contains no `<`, `>`, `"` or `'` |
| Escape.EscapeCharSafe | public/scripts/heading-glitch.js:23-30 | the entity of a single character contains none of these four characters |
| Escape.UnescapeEscapeHtml | public/scripts/heading-glitch.js:23-30 | decoding the entities gives back the original text (round trip) |
| Escape.UnescapeEntity | public/scripts/heading-glitch.js:23-30 | one escaped character followed by any text reads back as that character followed by the reading of the text |
| Timing.EffectiveSpeed | public/scripts/heading-glitch.js:130 | the effective speed lies in [1, 100] |
| Timing.IntervalMsFromSpeed | public/scripts/heading-glitch.js:129-133 | the tick lies in [2, 200] ms for every input, NaN included |
| Timing.IntervalClosedForm | public/scripts/heading-glitch.js:132 | lerp(200, 2, (s-1)/99) equals 202 - 2s |
| Timing.IntervalEnds | public/scripts/heading-glitch.js:129-133 | speed 1 gives 200 ms and speed 100 gives 2 ms |
| Timing.IntervalDefault | public/scripts/heading-glitch.js:9 | NaN and 0 fall back to speed 75; speed 75 gives exactly 52 ms |
| Timing.IntervalNegative | public/scripts/heading-glitch.js:130 | a negative speed is clamped up to 1, giving 200 ms |
| Timing.IntervalMonotone | public/scripts/heading-glitch.js:129-133 | for non-zero speeds, a higher speed never gives a longer tick |
| Timing.IntervalLinear | public/scripts/heading-glitch.js:129-133 | within [1, 100], one unit of speed is worth 2 ms |
| SpanSelector.TrimStart | public/scripts/heading-glitch.js:33 | the result is a suffix of the input; everything removed in front of it is whitespace, and it does not start with whitespace |
| SpanSelector.TrimEnd | public/scripts/heading-glitch.js:33 | the result is a prefix of the input; everything removed after it is whitespace, and it does not end with whitespace |
| SpanSelector.Trim | public/scripts/heading-glitch.js:33 | the result is a slice of the input with only whitespace outside it; a non-empty result starts and ends with non-whitespace; the result is empty exactly when the input is all whitespace |
| SpanSelector.Collapse | public/scripts/heading-glitch.js:33 | collapsing never lengthens the text, keeps its first character (as a space when it is whitespace) and a final non-whitespace character; what it does to every whitespace run, wherever it stands, is stated by CollapseRun and CollapseInnerRun, and what it keeps by CollapseKeepsText and CollapseSplit |
| SpanSelector.CollapseSpaces | public/scripts/heading-glitch.js:33 | the only whitespace left is the plain space, and no two spaces are adjacent |
| SpanSelector.CollapseKeepsText | public/scripts/heading-glitch.js:33 | collapsing keeps every non-whitespace character, in order (`Solid`, the non-whitespace characters, is unchanged) |
| SpanSelector.SolidTrimStart | public/scripts/heading-glitch.js:33 | removing leading whitespace keeps every non-whitespace character, in order |
| SpanSelector.TrimStartRun | public/scripts/heading-glitch.js:33 | removing leading whitespace from a whitespace run followed by text not starting with whitespace leaves exactly that text |
| SpanSelector.CollapseRun | public/scripts/heading-glitch.js:33 | a leading maximal whitespace run, of any length, becomes exactly one space followed by the collapsed rest |
| SpanSelector.CollapseInnerRun | public/scripts/heading-glitch.js:33 | a maximal whitespace run after a non-whitespace character, of any length, becomes exactly one space between the collapsed text before it and the collapsed text after it |
| SpanSelector.CollapseSplit | public/scripts/heading-glitch.js:33 | cut right after a non-whitespace character, the text collapses as its two sides collapsed on their own and joined |
| SpanSelector.TrimStartAppend | public/scripts/heading-glitch.js:33 | removing leading whitespace from a text that ends in non-whitespace leaves whatever follows it untouched |
| SpanSelector.NormalizeIsNormalized | public/scripts/heading-glitch.js:33 | a normalised heading has no leading or trailing space, no double space and no other whitespace |
| SpanSelector.FirstSpace | public/scripts/heading-glitch.js:35 | the index of the first space |
| SpanSelector.SplitOnSpace | public/scripts/heading-glitch.js:35 | `split(' ')` gives at least one part and no part contains a space |
| SpanSelector.JoinSplit | public/scripts/heading-glitch.js:35 | joining the parts with spaces gives back the string |
| SpanSelector.JoinInitLast | public/scripts/heading-glitch.js:70-74 | the joined words are the join of all but the last word, a space, and the last word |
| SpanSelector.NormalizedWords | public/scripts/heading-glitch.js:33-35 | the words of a normalised heading are non-empty and rejoin to it; there is one word exactly when it has no space |
| SpanSelector.Fit | public/scripts/heading-glitch.js:52-57 | the trailing run of words is as long as fits in 30 characters: it fits, and one more word would not |
| SpanSelector.MinStart | public/scripts/heading-glitch.js:59-63 | after the minimum-length fallback the run still starts inside the sentence |
| SpanSelector.Cut | public/scripts/heading-glitch.js:65-68 | after the whole-sentence cap, at least one word stays before the span and at least one is in it |
| SpanSelector.CutFits | public/scripts/heading-glitch.js:52-68 | a span of two or more words fits in 30 characters |
| SpanSelector.AccumulateTrailing | public/scripts/heading-glitch.js:50-57 | the backward loop ends with the longest trailing run of words that fits in 30 characters, and its text |
| SpanSelector.EnsureMinimum | public/scripts/heading-glitch.js:59-63 | a run under 15 characters is replaced by the last word alone |
| SpanSelector.AvoidWholeSentence | public/scripts/heading-glitch.js:65-68 | a run of all the words is replaced by the last half of them (at least one) |
| SpanSelector.ChooseTrailingWords | public/scripts/heading-glitch.js:59-74 | after the fallback and the cap, the prefix and span are the sentence cut at `Cut` |
| SpanSelector.SplitLastWord | public/scripts/heading-glitch.js:32-75 | the method computes the specified split, or null |
| SpanSelector.SplitSpecNone | public/scripts/heading-glitch.js:34-46 | there is no span exactly when the heading is blank, or is one word longer than 30 characters |
| SpanSelector.SplitAtParts | public/scripts/heading-glitch.js:70-74 | cutting proper words after the first m (0 < m < n): `before + word` rebuilds the sentence, the word is non-empty and ends with the last word (it is the last word when m = n - 1), and `before` is words followed by one space |
| SpanSelector.SplitManyWords | public/scripts/heading-glitch.js:48-74 | a text of several words is cut at `Cut` |
| SpanSelector.SplitOneWord | public/scripts/heading-glitch.js:42-46 | a single word, when it has a span, is the whole span with an empty prefix |
| SpanSelector.SplitSpecSome | public/scripts/heading-glitch.js:70-74 | for any heading with a span: before + word is the normalised heading, the word is non-empty and `before` ends with a space when non-empty |
| SpanSelector.SplitSpecMultiWord | public/scripts/heading-glitch.js:48-74 | a heading with a space has a span that is the last words of the sentence, never all of them and never none |
| SpanSelector.TrailingSpan | public/scripts/heading-glitch.js:48-74 | for two or more proper words, some words stay before the span, the span ends with the last word, and it is at most 30 characters unless it is the last word alone |
| Scrambler.AlphabetLiteral | public/scripts/heading-glitch.js:7-8 | the glyph alphabet has 61 characters |
| Scrambler.AlphabetGlyphs | public/scripts/heading-glitch.js:7-8 | no glyph of the alphabet is a space or a lower-case letter |
| Scrambler.MatchCaseScrambled | public/scripts/heading-glitch.js:119-121 | any alphabet glyph, case-matched to a non-space character, is a valid output there: not a space, upper-case exactly when the target character is, and an alphabet glyph once upper-cased |
| Scrambler.Extend | public/scripts/heading-glitch.js:109-124 | appending a character that fits its target position and does not repeat the last glyph keeps both output guarantees |
| Scrambler.GlyphAvailable | public/scripts/heading-glitch.js:116-122 | some draw ends the rejection loop: a glyph that differs from the last one after case matching |
| Scrambler.LastGlyphAppend | public/scripts/heading-glitch.js:112-124 | `last` follows the last non-space glyph; a kept space leaves it unchanged |
| Scrambler.MakeScrambledVariant | public/scripts/heading-glitch.js:107-127 | the result has the target's length, keeps spaces where the target has them, matches case and never repeats the previous non-space glyph |
| Scrambler.NoAdjacentRepeat | public/scripts/heading-glitch.js:116-122 | two adjacent non-space output glyphs differ |
| Scrambler.NoRepeatAcrossSpaces | public/scripts/heading-glitch.js:109-124 | two non-space glyphs with only spaces between them differ, because `last` survives spaces |
| Compositor.Slice | public/scripts/heading-glitch.js:153-157 | `String.prototype.slice` with non-negative bounds: a real slice when ordered, empty when crossed |
| Compositor.WindowSize | public/scripts/heading-glitch.js:137 | the scramble window is at least one letter |
| Compositor.WindowSizeCases | public/scripts/heading-glitch.js:137 | NaN and 0 give 10; v >= 1 gives floor(v); other values give 1 |
| Compositor.Mid | public/scripts/heading-glitch.js:142 | ceil(len / 2) |
| Compositor.Half | public/scripts/heading-glitch.js:143 | max(floor(r / 2), 1) |
| Compositor.LeftBounds | public/scripts/heading-glitch.js:175-178 | both cut points lie in [0, len] |
| Compositor.RightBounds | public/scripts/heading-glitch.js:160-163 | both cut points lie in [0, len] |
| Compositor.CenterBounds | public/scripts/heading-glitch.js:142-150 | all four cut points are non-negative |
| Compositor.LeftBoundsOrdered | public/scripts/heading-glitch.js:175-178 | for t in [0, 1], the left-mode cuts are ordered and at most r letters apart |
| Compositor.RightBoundsOrdered | public/scripts/heading-glitch.js:160-163 | for t in [0, 1], the right-mode cuts are ordered and at most r letters apart |
| Compositor.OtherModesAreLeft | public/scripts/heading-glitch.js:169-184 | every mode other than center and right, random included, renders exactly like left |
| Compositor.NonEmptyAppend | public/scripts/heading-glitch.js:186-187 | filtering out empty parts distributes over concatenation |
| Compositor.LeftRightCover | public/scripts/heading-glitch.js:159-184 | in left and right mode the parts read target[..a] + scrambled[a..b] + target[b..] with 0 <= a <= b <= len |
| Compositor.SideModeParts | public/scripts/heading-glitch.js:159-184 | left mode reveals the prefix and hides the suffix; right mode hides the prefix and reveals the suffix |
| Compositor.SideTexts | public/scripts/heading-glitch.js:159-184 | the texts of a side-mode part list read target[..a] + scrambled[a..b] + target[b..] |
| Compositor.LeftRevealMonotone | public/scripts/heading-glitch.js:175-178 | in left mode both cuts never move back as progress grows |
| Compositor.CenterEdges | public/scripts/heading-glitch.js:142-145 | the two edges start at mid and mid + half and end at -half and 0 |
| Compositor.CenterModeParts | public/scripts/heading-glitch.js:141-151 | center mode takes its parts from the four clamped center cuts |
| Compositor.CenterTexts | public/scripts/heading-glitch.js:141-151 | for ordered center cuts, the five part texts are consecutive slices alternating between the target and the scramble |
| Compositor.CenterZeroCuts | public/scripts/heading-glitch.js:141-150 | at progress 0 the three inner cuts sit at mid = ceil(len / 2) and the right edge at len - mid |
| Compositor.CenterZeroParts | public/scripts/heading-glitch.js:141-158 | at progress 0 only the two hidden halves, target[..mid] and the last mid characters, survive the filter |
| Compositor.CenterEvenOrdered | public/scripts/heading-glitch.js:141-151 | for an even-length text the four center cuts are ordered around mid |
| Compositor.CenterEvenCover | public/scripts/heading-glitch.js:141-158 | for an even-length text the five center parts are the five consecutive slices of the text |
| Compositor.CenterOddAtZero | public/scripts/heading-glitch.js:141-158 | for an odd-length text at progress 0, the middle character is hidden twice: the parts are one character longer than the text |
| Compositor.CenterEvenAtZero | public/scripts/heading-glitch.js:141-158 | for an even-length text at progress 0, everything is hidden, in two halves |
| Compositor.SidesAtZero | public/scripts/heading-glitch.js:159-195 | at progress 0, left and right mode render the whole text hidden |
| Compositor.CenterAtOne | public/scripts/heading-glitch.js:141-158 | at progress 1, center mode leaves only the whole target revealed |
| Compositor.SidesAtOne | public/scripts/heading-glitch.js:159-184 | at progress 1, every other mode leaves only the whole target revealed |
| Compositor.AllAtOne | public/scripts/heading-glitch.js:135-195 | at progress 1, every mode renders the whole text revealed |
| Compositor.Html | public/scripts/heading-glitch.js:186-193 | a non-empty part list gives non-empty markup |
| Compositor.HtmlEmpty | public/scripts/heading-glitch.js:186-195 | the filtered markup is empty exactly when all part texts are empty |
| Compositor.EmptyTarget | public/scripts/heading-glitch.js:195 | an empty target renders the empty string, through the fallback |
| Controller.Surface.constructor | public/scripts/heading-glitch.js:97-99 | the overlay starts with the given content |
| Controller.DurationMs | public/scripts/heading-glitch.js:207 | the duration is at least one tick |
| Controller.RefreshMs | public/scripts/heading-glitch.js:217 | the refresh period is at least 10 ms and at most max(10, tick) |
| Controller.ScrambleAppear.Progress | public/scripts/heading-glitch.js:221 | progress lies in [0, 1]; it is 0 until the start and 1 from start + duration on |
| Controller.ScrambleAppear.constructor | public/scripts/heading-glitch.js:198-217 | records tick, duration and refresh period; for an element, both clocks are started; a non-element gets a no-op stop and no clocks |
| Controller.ScrambleAppear.Tick | public/scripts/heading-glitch.js:215-217 | a live interval regenerates the scramble; nothing else changes |
| Controller.ScrambleAppear.Frame | public/scripts/heading-glitch.js:219-228 | a stopped or unscheduled frame does nothing; otherwise it renders the current progress and re-arms while t < 1, and at t = 1 clears the interval and shows the plain text |
| Controller.ScrambleAppear.Stop | public/scripts/heading-glitch.js:232-237 | for an element, both clocks are stopped and the plain text is shown; for a non-element, nothing changes |
| Controller.RunToEnd | public/scripts/heading-glitch.js:221-227 | a frame after the duration ends the animation, stops both clocks and leaves the plain text |
| Controller.StopTwice | public/scripts/heading-glitch.js:232-237 | stopping twice is the same as stopping once |
| Controller.FrameAfterStop | public/scripts/heading-glitch.js:219-220 | a frame after stop changes nothing |
| Controller.DefaultDuration | public/scripts/heading-glitch.js:206-217 | at the default speed, the duration is 52 * (len + 10) ms and the refresh period is 52 ms |
| Trigger.TimeoutDelay | public/scripts/heading-glitch.js:259-266 | the safety timeout is 52 * (len + 10) + 60 ms |
| Trigger.SystemsTimings | public/scripts/heading-glitch.js:259-266 | for "SYSTEMS", the duration is 884 ms and the timeout is 944 ms |
| Trigger.Attach | public/scripts/heading-glitch.js:77-99 | a heading gets a glitch span exactly when its text has a split; the span's target is the chosen words and the overlay shows them |
| Trigger.HeadingTrigger.constructor | public/scripts/heading-glitch.js:88-99 | a fresh span is idle, has never run, and shows its target |
| Trigger.HeadingTrigger.Enter | public/scripts/heading-glitch.js:240-266 | entering a running span changes nothing: not the trigger, not the text shown, not the running controller; otherwise it sets the flags, stops the previous run, starts exactly one new controller on the overlay with both clocks running and duration 52 * (len + 10) ms at the default speed, and schedules one timeout at now plus the timeout delay |
| Trigger.HeadingTrigger.Leave | public/scripts/heading-glitch.js:277-280 | leaving only clears the running flag; the animation and its timeout go on |
| Trigger.HeadingTrigger.TimeoutFires | public/scripts/heading-glitch.js:261-266 | a timeout, firing no earlier than its due time, restores the target text, stops whatever run is current and forgets it, removes its deadline, and leaves the running flag as it was |
| Trigger.HeadingTrigger.FrameEvent | public/scripts/heading-glitch.js:219-228 | a frame from a replaced run never touches the overlay |
| Trigger.HeadingTrigger.TickEvent | public/scripts/heading-glitch.js:215-217 | a tick from a replaced run does nothing |
| Trigger.StaleTimeout | public/scripts/heading-glitch.js:243-280 | after enter at 0 ms, leave, and enter at 100 ms, the first run's timeout fires at its due time, before the second run's own end, and stops that run, while the span still counts as running |
| GuessTheWord.Digits | projects/GuessTheWord/main.js:94 | the decimal form of a number is a non-empty string of digits |
| GuessTheWord.Tail | projects/GuessTheWord/main.js:94 | `slice(-k)`: the last k characters, or the whole string when it is shorter |
| GuessTheWord.Padding | projects/GuessTheWord/main.js:93-95 | for length >= 1 the result has exactly that length |
| GuessTheWord.PaddingIsLowDigits | projects/GuessTheWord/main.js:93-95 | padding a natural number gives its lowest `length` decimal digits |
| GuessTheWord.PaddingShort | projects/GuessTheWord/main.js:93-95 | a number that fits is left-padded with zeros |
| GuessTheWord.LowDigitsValue | projects/GuessTheWord/main.js:93-95 | the padded digits denote the number modulo 10^length |
| GuessTheWord.PaddingSeven | projects/GuessTheWord/main.js:89 | 7 is shown as "007" |
| GuessTheWord.PaddingTruncates | projects/GuessTheWord/main.js:89 | 1234 is shown as "234": high digits are lost |
| GuessTheWord.SameWidthLexLess | projects/GuessTheWord/main.js:31 | for numbers of equal digit count, string order agrees with numeric order |
| GuessTheWord.SortByKeyPermutes | projects/GuessTheWord/main.js:31 | the key sort is a permutation |
| GuessTheWord.SortByKeySorted | projects/GuessTheWord/main.js:31 | the key sort orders the indices by their decimal strings: no key comes after a key it is below in string order |
| GuessTheWord.LexLessSplit | projects/GuessTheWord/main.js:31 | string `<` is negatively transitive: if a < c then a < b or b < c, for every b |
| GuessTheWord.InsertByKeySorted | projects/GuessTheWord/main.js:31 | inserting a key keeps a list sorted by string keys |
| GuessTheWord.InsertByKeyPermutes | projects/GuessTheWord/main.js:31 | inserting one key into a sorted list adds exactly that key |
| GuessTheWord.SameWidthKeepsOrder | projects/GuessTheWord/main.js:31 | ascending keys of equal width are left in place by the string sort |
| GuessTheWord.AsWrittenAgreesUpToTen | projects/GuessTheWord/main.js:31-33 | for words of up to ten letters the string sort gives page order |
| GuessTheWord.SortTenBeforeTwo | projects/GuessTheWord/main.js:31 | keys 0, 1, 2, 3, 4 and 10 sort to 0, 1, 10, 2, 3, 4 |
| GuessTheWord.AsWrittenRejectsCorrectGuesses | projects/GuessTheWord/main.js:31-52 | for a word of 11 or more comma-free letters whose third and eleventh letters differ, with tiles 0-4 and 10 hidden: the string sort puts 10 before 2, and the letters typed in tile order never match the answer as written |
| GuessTheWord.Letters | projects/GuessTheWord/main.js:28-32 | the answer entry for each position is that position's letter |
| GuessTheWord.CommaJoinInjective | projects/GuessTheWord/main.js:52 | for equally long lists of comma-free letters, the `toString()` comparison holds exactly when the lists are equal |
| GuessTheWord.PositionsSound | projects/GuessTheWord/main.js:22-24 | every listed tile has the requested disabled state |
| GuessTheWord.PositionsComplete | projects/GuessTheWord/main.js:22-24 | every tile with the requested state is listed |
| GuessTheWord.PositionsAscending | projects/GuessTheWord/main.js:22-24 | tiles are listed in page order |
| GuessTheWord.PositionsPartition | projects/GuessTheWord/main.js:22-24 | every tile is either disabled or enabled |
| GuessTheWord.EnableOne | projects/GuessTheWord/main.js:25-26 | enabling a disabled tile shrinks the disabled list by one |
| GuessTheWord.PickInRange | projects/GuessTheWord/main.js:25 | floor(random * n) is a valid index into n tiles |
| GuessTheWord.PickIndex | projects/GuessTheWord/main.js:25 | the picked index lies in [0, n) |
| GuessTheWord.LowerWord | projects/GuessTheWord/main.js:11 | lower-casing works character by character and keeps the length |
| GuessTheWord.Enabled | projects/GuessTheWord/main.js:23-24 | the enabled tiles are positions in the word |
| GuessTheWord.EnableTiles | projects/GuessTheWord/main.js:20-30 | the loop enables exactly ceil(len / 2) tiles, and `unordered` maps precisely the enabled positions to their letters |
| GuessTheWord.AnswerInPageOrder | projects/GuessTheWord/main.js:31-33 | the answer lists the enabled tiles' letters in page order |
| GuessTheWord.Game.Hidden | projects/GuessTheWord/main.js:42 | the guess tiles are positions in the word |
| GuessTheWord.Game.constructor | projects/GuessTheWord/main.js:1-7 | the counters start at score 0, 0 incorrect and 10 remaining |
| GuessTheWord.StoreAll | projects/GuessTheWord/main.js:86-91 | after the loop over the keys, in any order, each key of data holds its value and is shown padded to three digits; other entries are kept |
| GuessTheWord.Game.UpdateGameState | projects/GuessTheWord/main.js:86-91 | every given key is written and shown padded to three digits; other keys are kept; word, tiles and answer are untouched, so the game stays well formed |
| GuessTheWord.Game.SetWord | projects/GuessTheWord/main.js:9-37 | the word is the lower-cased pick, half the tiles (rounded up) are guess tiles, and the answer is their letters in page order |
| GuessTheWord.Game.Reset | projects/GuessTheWord/main.js:97-106 | a new word, and the counters back to (0, 0, 10), both in `gameState` and as shown on the page |
| GuessTheWord.Game.CheckEndOfGame | projects/GuessTheWord/main.js:77-84 | with no guesses left the game resets (new word, counters and their display back to (0, 0, 10)); otherwise the counters, their display, the word, the tiles and the answer are unchanged |
| GuessTheWord.Game.Check | projects/GuessTheWord/main.js:48-67 | correct means the joined lower-cased guesses equal the joined answer; a correct guess scores one, shows the new score and sets a new word; a wrong one moves one guess from remaining to incorrect and shows both, on the same word and tiles, and at the last guess the game resets |
| GuessTheWord.Game.Scored | projects/GuessTheWord/main.js:52-57 | a new word, the score one higher and shown, the other counters unchanged |
| GuessTheWord.Game.Missed | projects/GuessTheWord/main.js:58-66 | one guess moves from remaining to incorrect and both are shown; the word, answer and tiles stay for another try, unless it was the last guess and the game resets |
| GuessTheWord.TypedAnswerAccepted | projects/GuessTheWord/main.js:39-52 | typing the hidden letters in tile order, in any case, matches the page-order answer |
| GuessTheWord.LowerIdempotent | projects/GuessTheWord/main.js:11 | lower-casing twice is lower-casing once |

## Left out

- Floating point: numbers are exact reals. IEEE rounding, infinities and the
  `-0` / `0` distinction are not modelled. Only `NaN` is.
- `Controller.ScrambleAppear.constructor`: `scrambledLetters` is a real. A `NaN` count
  (which would make the duration `NaN` and the animation end at once) is not modelled.
- Unicode: `toUpperCase`/`toLowerCase` are modelled on ASCII letters only.
- String lengths: a Dafny string is a sequence of Unicode code points, while a
  JavaScript string is a sequence of UTF-16 code units. For text with characters
  outside the Basic Multilingual Plane (emoji, for instance), every `.length`, index
  and `slice` differs. This concerns `SpanSelector` (the 15- and 30-character limits),
  `Scrambler` (`targetText[i]` splits such a character into two lone surrogates and
  so two glyphs), `Compositor` (`Mid` and every cut), `Controller.DurationMs` and
  `Trigger.TimeoutDelay` (`text.length`), and `GuessTheWord` (`for (let i in word)`,
  `word[i]` and `word.length` in `setWord`). The model counts code points.
- Randomness: `Math.random` is not modelled. The scrambler's rejection loop becomes a
  choice of any glyph the loop can end with, and the number of rejected draws is not
  modelled. In GuessTheWord, the draws for the hidden tiles are a parameter.
- Timers and the browser: `setInterval`, `requestAnimationFrame`, `setTimeout` and
  `performance.now` become method calls and a `now` parameter. Their scheduling and
  interleaving are not modelled beyond calling `Tick`, `Frame` and `TimeoutFires` in
  any order, with a timeout firing no earlier than its due time.
- The DOM: an element becomes a `Surface` object with text or markup content. The
  `IntersectionObserver` threshold, the `prefers-reduced-motion` switch, CSS classes
  other than the glitching flag, and the measuring span are not modelled.
- `Trigger.Attach`: the early return for a heading that already has a span
  (heading-glitch.js:79) is not modelled; each heading is attached once.
- GuessTheWord: `alert`, `updateWordTiles` (clearing the typed letters), the tile
  markup and the global `words` list are not modelled. The word is a parameter.
- `GuessTheWord.Game.Check`: the model requires at least one remaining guess, which
  every sequence of calls from the start keeps. The case `remaining == 0` cannot be
  reached.
- `GuessTheWord.Game.SetWord` uses the corrected page-order answer (see Findings). The
  string-sorted answer is modelled separately, by `GuessTheWord.SortByKey`.
- Other scripts of the site (navigation sheet, utilities) are not part of this model.

## Findings

| source | as written | input that shows it | evidently intended | confidence | as-written member | corrected member |
|---|---|---|---|---|---|---|
| projects/GuessTheWord/main.js:31 | `Object.keys(unordered).sort()` orders the hidden tile indices as strings, so "10" comes before "2" | a word of 11 letters such as "abcdefghijk" with tiles 0-4 and 10 hidden: the answer is a,b,k,c,d,e, while the guess tiles are read in page order as a,b,c,d,e,k, so the correct letters are rejected | the answer lists the hidden letters in tile (page) order, as the guesses are read | high; not executed | GuessTheWord.AsWrittenRejectsCorrectGuesses | GuessTheWord.AnswerInPageOrder |
