# Falling letters: a verified model of the game core

The game drops characters down a canvas. They are capital letters, digits and
punctuation marks. A click on a falling capital letter scores one point and
removes the letter. A click on any other character changes nothing but its
colour. A capital letter that falls past the bottom of the canvas goes on the
list of missed letters, once per letter. When a frame of the game loop starts
with the score at 5 (`maxScore`) or more, it empties the list of falling
elements and stops the game. Their characters stay on the page until Enter
removes them. Enter restarts the game. Escape pauses or resumes it.

The project has three modules:

- `Alphabet` (`alphabet.dfy`): the characters a new element can carry, and
  the target class `/[A-Z]/`.
- `GameSpec` (`game_spec.dfy`): the game as values.
  - `Elem` is one falling element and `State` is the whole game: score,
    running flag, active elements in order, and missed letters in order.
  - The functions say what one frame (`Tick`), one click (`ClickOn`) and one
    key press (`KeyDown`) do to a `State`.
  - The lemmas prove what these operations promise: the invariant `Inv` is
    kept; the missed list is only appended to, stays duplicate-free and
    records exactly the capital letters that fell out; the filter of marked
    elements keeps exactly the unmarked ones, in order; Enter restarts from
    an empty game; Escape pauses and resumes.
- `Game` (`game.dfy`): the page's objects.
  - `FallingElement` is a class whose fields its methods update in place.
  - `Session` is a class holding the script's global variables: `score`,
    `isGameRunning`, `elements`, the missed-letter panel as a sequence of
    characters, and the canvas height.
  - Most methods are proved against the `GameSpec` function of the same
    step. The exceptions are `FallingElement.OnClick`, `RemoveElement` and
    `IsAlreadyThere`, which state their effect directly. For example, `GameLoop` ensures `View() == Tick(old(View()), height, roll)`
    and keeps `Valid()`. `Valid()` is `Inv` plus "no element object appears
    twice in `elements`".

The random draws of a frame appear as a `Roll` parameter: either no spawn,
or a spawn with a character index and a horizontal offset.

In these places the code may surprise a reader; the model follows the code:

- There is one target class, capital letters, and the goal is the constant 5.
  There are no settings.
- Marking an element also detaches its span (script.js:86-89). A click on a
  marked element therefore never reaches the handler, and each element
  scores at most once (`ClicksScoreEachElementOnce`).
- Each click adds its point at once. Two clicks within one frame can take the
  score past 5 while the game still runs. The next frame notices the win
  (`ScorePassesMaxScore`).
- The update loop also runs on elements already marked by a click. A letter
  clicked just above the bottom is then recorded as missed as well
  (`ClickedLetterAlsoMissed`).
- Escape on a game stopped by a win runs the win branch again. It clears the
  (already empty) elements and stays stopped (`EscapeToggles`).

## Model

| member | source | states |
|---|---|---|
| Alphabet.IsUpper | script.js:64 | the target class `/[A-Z]/` on one character, the test of script.js:64 and 79; the spawnable characters are the constant `Alphabet.Characters`, the string of script.js:103 |
| GameSpec.NewElement | script.js:102-108 | a spawned element carries a character of the alphabet, starts at y = 0 with speed 1 and is not marked |
| GameSpec.Advance | script.js:74-82 | an update moves the element down by its speed, keeps character, x and speed, and marks it exactly when it was marked or is now below the canvas |
| GameSpec.AdvanceTimesMoves | script.js:74-82 | after n updates the element has moved by n times its speed and is marked exactly when it was marked or has passed the bottom |
| GameSpec.InsertMissed | script.js:91-98 | a letter already listed leaves the missed list unchanged, a new one is appended; membership grows by exactly that letter and the list stays duplicate-free |
| GameSpec.AdvanceAll | script.js:139-141 | the update pass keeps the number and order of elements and updates each one |
| GameSpec.RecordMissed | script.js:139-141 | the missed-letter effect of the update loop adds only capital letters; RecordMissedSpec states exactly which |
| GameSpec.RecordMissedSpec | script.js:77-81 | the update pass only appends to the missed list, keeps it duplicate-free, and adds exactly the capital letters of the elements that pass the bottom |
| GameSpec.Survivors | script.js:148 | the filter never lengthens the list; SurvivorsMembers and SurvivorsAppend state what it keeps and in which order |
| GameSpec.SurvivorsMembers | script.js:148 | the filter keeps exactly the elements not marked for removal |
| GameSpec.SurvivorsAppend | script.js:148 | the filter distributes over concatenation, so survivors keep their relative order |
| GameSpec.Tick | script.js:123-151 | a stopped game is left unchanged; at score 5 or more the elements are cleared and the game stops with score and missed list kept; below 5 the game keeps running |
| GameSpec.PlayedElements | script.js:139-148 | a frame adds at most one element; PlayedElementsSpec states which elements remain |
| GameSpec.Play | script.js:137-148 | a frame below the goal leaves the game running and never lowers the score; a non-negative score is unchanged, since the clamp at 0 then does nothing |
| GameSpec.PlayedElementsSpec | script.js:139-148 | after a frame no marked element is left, the updated survivors come first in order, the spawned element comes last, and every element that was neither marked nor expiring survives |
| GameSpec.TickRunning | script.js:137-148 | a running frame below the goal keeps score and running flag, leaves no marked element, and extends the missed list with exactly the capital letters that fell out |
| GameSpec.TickKeepsInv | script.js:123-151 | every frame keeps the score non-negative, the missed list duplicate-free and made of capital letters, and every element at speed 1 with a character of the alphabet |
| GameSpec.ClickAt | script.js:61-71 | while running, a capital letter scores one and is marked, other elements unchanged; a stopped game or another character leaves the state unchanged |
| GameSpec.ClickKeepsInv | script.js:61-71 | a click keeps the invariant and never lowers the score |
| GameSpec.ClickOn | script.js:61-71 | the click as the page delivers it (a marked element's span is detached, script.js:86-89): keeps the number of elements; its promises are carried by ClickOnConserves, ClickOnTwice and ClicksScoreEachElementOnce |
| GameSpec.ClickOnConserves | script.js:61-71 | a delivered click either scores one and marks one unmarked element, or changes neither: score plus unmarked elements is kept |
| GameSpec.ClickOnTwice | script.js:61-71 | a second click on the same element changes nothing: either the first click marked it and its span is gone, or the first click changed nothing |
| GameSpec.ClicksScoreEachElementOnce | script.js:61-71 | any run of clicks between two frames gains at most one point per element that was unmarked before them |
| GameSpec.ScorePassesMaxScore | script.js:61-67 | two clicks in one frame from score 4 reach 6 while the game still runs |
| GameSpec.ClickedLetterAlsoMissed | script.js:139-141 | a letter clicked at the bottom edge is scored and then recorded as missed by the next frame |
| GameSpec.KeyDown | script.js:158-173 | keys other than Enter and Escape change nothing, and Enter leaves the game running at score 0; EnterRestarts, EscapeToggles and KeyDownKeepsInv carry the rest |
| GameSpec.EnterRestarts | script.js:159-166 | after Enter the game runs from score 0 with an empty missed list and at most the element spawned by its first frame |
| GameSpec.EscapeToggles | script.js:169-172 | Escape pauses a running game without other change, resumes a paused game below the goal, and leaves a won game stopped with no elements |
| GameSpec.KeyDownKeepsInv | script.js:158-173 | every key press keeps the invariant |
| Game.IsAlreadyThere | script.js:92-93 | the search finds the letter exactly when it is among the listed missed letters |
| Game.FallingElement.constructor | script.js:44-49 | the new element holds the given character, position and speed, unmarked |
| Game.FallingElement.RemoveElement | script.js:86-89 | the element is marked for removal and nothing else changes |
| Game.FallingElement.AddMissingLetter | script.js:91-99 | the missed list becomes the old one with the element's letter inserted unless present |
| Game.FallingElement.Update | script.js:74-84 | the element's new fields are Advance of the old ones, the missed list gains its letter exactly when a capital letter passes the bottom, and the score is clamped at 0 |
| Game.FallingElement.OnClick | script.js:61-71 | while running, a capital letter adds one to the score and is marked; otherwise score and mark are unchanged |
| Game.RemoveMarked | script.js:148 | the kept objects' values are the survivors of the old values, and distinct objects stay distinct |
| Game.Session.constructor | script.js:8-10 | the session starts running at score 0 with no element and no missed letter, and is valid |
| Game.Session.GenerateRandomElement | script.js:102-109 | one fresh element is appended after the unchanged old ones, with the value NewElement of the draws |
| Game.Session.UpdateElements | script.js:139-141 | the element objects stay the same, their values become AdvanceAll of the old ones, and missed list and score follow RecordMissed and the clamp |
| Game.Session.UpdateAt | script.js:140 | the i-th element is advanced, every other element is unchanged, and missed list and score follow that one update |
| Game.Session.UpdateAndSpawn | script.js:139-145 | the elements' values become the updated old ones followed by the spawned element, if any |
| Game.Session.FilterElements | script.js:148 | the elements' values become the survivors of the old values, with no object twice |
| Game.Session.PlayFrame | script.js:137-148 | the session's elements, missed list and score become those of a played frame |
| Game.Session.GameLoop | script.js:123-151 | the session after the call is Tick of the session before, and stays valid |
| Game.Session.Click | script.js:61-71 | the session after the click is ClickOn of the session before (no change for a marked element, whose span is detached), and stays valid |
| Game.Session.OnKeyDown | script.js:158-173 | the session after the key is KeyDown of the session before, and stays valid |
| Game.Session.Restart | script.js:159-164 | the fields Enter resets give the initial state |
| Game.Session.TogglePause | script.js:170 | only the running flag flips |

## Left out

- The page itself is not modelled: spans, their position and red colour, and
  the missed-letter panel as HTML. Of a span's removal, only its effect on
  clicks is modelled: a marked element receives none. The panel
  is a sequence of characters, and the duplicate check reads that sequence
  instead of the panel's span texts.
- Canvas drawing is left out: background, moon, gauge and clearing. The
  canvas width is left out, and so is the formula for the x offset
  (`Math.floor(Math.random() * width - 60)`). The offset is any integer drawn
  by the caller.
- `Math.random` is left out. The spawn decision (probability 0.02), the
  character index and the offset are the `Roll` parameter. `ValidRoll` only
  requires the index to lie within the alphabet.
- `requestAnimationFrame` is left out. `GameLoop` models one frame, and the
  key handler's call is one frame. The model does not capture several
  scheduled loops running at once, as after Enter on a running game.
- The image loading and `Promise.all` start-up, which spawns one element and
  runs the first frame, are left out. A caller can do the same with
  `GenerateRandomElement` and `GameLoop`.
- The sound, the Lottie celebration and its removal on Enter are left out.
- The canvas height is a constant of the session, read once. Window resizing
  is not modelled.
- Numbers are unbounded integers. JavaScript's floating-point score and
  positions are not modelled, and neither is their precision.
- The click handler's closure is modelled as the method `Session.Click`,
  which takes the element's index. Which span the player clicks is the
  caller's choice.
