# util.js: panels, navigation lists and prioritised elements

This project models the three jQuery helpers at the core of the site's `assets/js/util.js`
and proves what each of them does.

- **`$.fn.navList`** (module `NavList`, `nav_list.dfy`) rewrites every link under a
  navigation element as a flat `<a class="link depth-N">` element, followed by an
  indentation span and the link's text. `N` is one less than the number of enclosing `<li>`
  elements, and never below zero. The result is one HTML string. The method `NavList`
  builds the string with the source's loop over an array. It is proved equal to the
  link-by-link specification `Render`. A parser, `ParseFragment`, reads a fragment back;
  the round-trip lemma shows that each fragment carries exactly:
  - the depth, in both places it is written;
  - the `target` and `href` attributes;
  - the text.
- **`$.fn.panel`** (module `Panel`, `panel.dfy`, using module `Swipe`, `swipe.dfy`) turns
  an element into a panel. The panel is shown and hidden by a class on a target element.
  - It closes on a click elsewhere on the page, a link inside it (hide-on-click), the
    Escape key, or a swipe toward the side it is attached to.
  - A page link to `#id` toggles it.
  - The controller is the class `Panel.Panel`. Each event handler is one method:
    `Click`, `TouchStart`, `TouchMove`, `TouchEnd` and `KeyDown`. Each method updates
    the target's class list and the touch origin, and says which of `preventDefault` and
    `stopPropagation` the handlers called.
  - The order in which jQuery runs the handlers is part of the model. Handlers delegated
    to a link run before handlers bound directly to the element. A `stopPropagation` keeps
    the event away from the body's handlers.
  - Hiding arms a one-shot timer for the cleanup. Hide-on-click arms a second one, 10 ms
    later, that follows the link. Armed timers are kept in `pending`. `Fire` runs one
    timer and records what it did: scroll to top, reset forms, open a window, or set the
    location.
  - The swipe rule is stated twice: once as the source's switch over the side, and once
    as a single test in the frame of the attached side. The two are proved equal.
- **`$.prioritize`** (module `Prioritize`, `prioritize.dfy`) moves elements to the front of
  their parents, or puts them back.
  - With the condition true, an element not moved before and with a previous sibling is
    prepended to its parent, and that sibling is remembered in the element's data.
  - With the condition false, a moved element is inserted after the remembered sibling,
    and the memory is erased.
  - The page is a `Dom`: the children of each parent, the parent of each child, and the
    remembered siblings. `Document.Prioritize` runs the loop over the elements on a
    `Document` object. It is proved equal to `Run`, a function that applies one `Step`
    per element.
  - For a single element, the lemmas prove:
    - the no-op cases;
    - the exact move;
    - that moving and moving back gives back the page (`RoundTrip`);
    - idempotence of one element's step.
  - The whole operation with the condition true is not idempotent. On children
    `[a, b]`, a first call leaves `a` alone, because it has no previous sibling, and
    moves `b` to the front. A second call then finds `a` unmoved behind `b` and moves it
    to the front too, giving back `[a, b]` (`RunAgainMovesFirst`).
  - For several elements, moving them back in the reverse order undoes the move
    (`RestoreUndoesRun`). The operation walks the elements in the order of the list it
    is given. When the caller passes the same element list both times, for example a
    stored jQuery object, adjacent siblings do not come back. Moving `b, c` of
    `[a, b, c]` to the front and back in that order leaves `[a, c, b]`
    (`SiblingsNotRestored`).
  - A selector string is looked up again on every call, in document order. After the
    move the page reads `[c, b, a]`, so the second call visits `c` before `b`, which is
    the reverse order, and the page comes back as `[a, b, c]`
    (`SiblingsRestoredByQuery`).

Module `Wrappers` holds the `Option` type used for attributes and options that JavaScript
leaves `undefined`.

## Model

| member | source | states |
|---|---|---|
| Swipe.Dismisses | assets/js/util.js:245-275 | A movement dismisses exactly when it travels more than 50 px toward the edge of the attached side, seen in that side's frame, while drifting less than 20 px across (`ClosesPanel`). Other sides never dismiss. |
| Swipe.AtMostOneSide | assets/js/util.js:252-275 | No movement dismisses panels attached to two different sides. |
| Swipe.OnlyAttachedSides | assets/js/util.js:252-275 | Only `left`, `right`, `top` and `bottom` ever dismiss. The default `null` never does. |
| Swipe.FartherStillDismisses | assets/js/util.js:253-271 | Travelling further toward the closing edge, with the same drift, still dismisses. |
| Swipe.Symmetric | assets/js/util.js:253-271 | Left and right are mirror images, and so are top and bottom. Left and top differ only by swapping the axes. |
| Swipe.ThresholdsAreStrict | assets/js/util.js:247-255 | A travel of exactly 50 px does not dismiss and 50.5 px does. A drift of exactly ±20 px does not dismiss and ±19.5 px does. |
| Swipe.Examples | assets/js/util.js:252-275 | A straight leftward swipe closes a left panel and a slanted one does not. A rightward swipe closes a right panel, a downward swipe does not close a top panel, and no swipe closes a panel without a side. |
| NavList.Depth | assets/js/util.js:35 | The depth is one less than the number of enclosing `<li>` elements, and 0 when there are none. |
| NavList.Attribute | assets/js/util.js:49-59 | An attribute is written as nothing exactly when it is undefined or empty. Otherwise it is ` name="` followed by the value and a closing quote. |
| NavList.Fragment | assets/js/util.js:45-65 | A link's HTML starts with the opening `<a class="link depth-` and ends with the link's text and `</a>`. |
| NavList.NavList | assets/js/util.js:19-72 | The output is the fragment of every link, in the order the links are found, with nothing between them (`Render`). |
| NavList.JoinFragments | assets/js/util.js:45-70 | Joining an array that holds each link's fragment gives `Render` of the links. |
| NavList.JoinAppend | assets/js/util.js:70 | Joining two arrays one after the other gives the join of the first followed by the join of the second. |
| NavList.RenderAppend | assets/js/util.js:29-70 | The output for two lists of links, one after the other, is the output for the first followed by the output for the second. |
| NavList.NatToStringRoundTrip | assets/js/util.js:47 | The depth is written as decimal digits that read back as the same number. |
| NavList.ParseAttributeOf | assets/js/util.js:49-59 | An attribute is written exactly when it is defined and not empty, and it reads back as its value. |
| NavList.IndentedTextRoundTrip | assets/js/util.js:60-64 | The indentation span, text and closing tag read back as the same depth and text. |
| NavList.FragmentRoundTrip | assets/js/util.js:35-64 | Each fragment reads back as its link's depth, which is one less than its `<li>` ancestors and never below zero, and appears in both classes. It also reads back as its `target` and `href` exactly when they are defined and non-empty, and as its text. |
| Panel.Merge | assets/js/util.js:107-137 | Each option the caller gives wins. Each one left out takes its default: delay 0, every behaviour off, no side, the panel as target, class `visible`. |
| Panel.Defaults | assets/js/util.js:107-137 | Without options a panel has no delay, every behaviour off, no side, itself as the target, and the class `visible`. |
| Panel.SelfFragment | assets/js/util.js:198 | The panel's own link is `#` followed by its id, or by `undefined` when it has no id. It is used at lines 198, 307 and 320. |
| Panel.IgnoredHref | assets/js/util.js:198 | A link is left alone exactly when its `href` is missing, empty, `#` or the panel's own link. Every other `href` is followed. |
| Panel.RubberBand | assets/js/util.js:290-292 | A finger that does not move vertically never triggers it. Moving down, it triggers exactly when the panel is scrolled above its top. Moving up, it triggers exactly when the panel is within 2 px of its bottom. |
| Panel.Navigation | assets/js/util.js:211-214 | Following a link opens a new window exactly when the target is `_blank` and sets the location otherwise. Both go to the link's `href`. |
| Panel.JobActions | assets/js/util.js:160-172 | The cleanup after a hide scrolls to the top exactly when `resetScroll` is set, resets the forms exactly when `resetForms` is set, and does nothing else. A link timer navigates exactly once. |
| Panel.ToggleClass | assets/js/util.js:323 | After a toggle the class is present exactly when it was absent before. No other class changes. |
| Panel.ToggleClassTwice | assets/js/util.js:320-324 | Toggling twice gives back the class list. |
| Panel.Panel.constructor | assets/js/util.js:99-141 | The controller is bound to the element with the merged configuration. It has no touch origin and no armed or fired timers. |
| Panel.Panel.Hide | assets/js/util.js:144-174 | A hidden panel is left alone and the event is untouched. A shown panel has its event suppressed when one was given, loses the visible class, and gets exactly one cleanup timer after `delay`. Afterwards the panel is hidden. |
| Panel.Panel.Click | assets/js/util.js:184-324 | A click never leaves the panel. Inside the panel, a followed link hides the panel and arms the link timer at `delay + 10`. Inside the panel, a link to the panel's own fragment removes the class with no timer, and any other click changes nothing. On the page, a link to the fragment toggles the class. Any other click on the page hides the panel. |
| Panel.Panel.TouchEnd | assets/js/util.js:302-317 | A touch end inside the panel is only stopped. On the page it hides the panel. |
| Panel.Panel.KeyDown | assets/js/util.js:327-331 | Escape hides the panel when `hideOnEscape` is set. Any other key, or Escape without that option, changes nothing. |
| Panel.Panel.TouchStart | assets/js/util.js:223-227 | The first touch point becomes the origin, both coordinates together. |
| Panel.Panel.TouchMove | assets/js/util.js:229-298 | Without an origin nothing changes. A dismissing swipe with `hideOnSwipe` clears the origin, hides the panel and suppresses the event. Any other move keeps the origin and prevents the default only at the rubber-band edges. The event never leaves the panel. |
| Panel.Panel.Fire | assets/js/util.js:160-172 | Firing an armed timer removes it from `pending` and appends its job's actions to `performed`. |
| Panel.ToggleTwice | assets/js/util.js:320-324 | Two clicks on a page link to the panel's fragment give back the target's classes and arm no timer. |
| Panel.Bind | assets/js/util.js:82-96 | An empty selection gives no controllers. Otherwise every element gets its own distinct, idle controller with the same options. |
| Prioritize.Promote | assets/js/util.js:631-635 | Prepending an element and remembering its sibling keeps the page well formed: parents and children agree, and no child list repeats an element. |
| Prioritize.Reinsert | assets/js/util.js:646-649 | Inserting an element after its remembered sibling keeps the page well formed and leaves the memory alone. |
| Prioritize.Step | assets/js/util.js:609-654 | One element's step keeps the page well formed. |
| Prioritize.Run | assets/js/util.js:607-656 | The whole pass keeps the page well formed. |
| Prioritize.Document.Visit | assets/js/util.js:609-654 | The callback for one element leaves the page exactly as `Step` says. |
| Prioritize.Document.Prioritize | assets/js/util.js:598-658 | The loop leaves the page well formed and exactly as `Run` says: one step per element, in the given order. |
| Prioritize.Untouched | assets/js/util.js:612-643 | Nothing changes in these cases: an element without a parent; an element not moved before, when the condition is false or it is already its parent's first child; a moved element while the condition stays true. |
| Prioritize.PromoteMoves | assets/js/util.js:631-635 | After a move to the front, the element is its parent's first child, the other children keep their order, no parent changes, and the sibling it followed is remembered. |
| Prioritize.RestoreMoves | assets/js/util.js:646-652 | When the remembered sibling has the same parent, the element leaves its position and is placed right after that sibling. The other children keep their order, no parent changes, and the memory is erased. |
| Prioritize.RestoreMovesAcross | assets/js/util.js:646-652 | When the remembered sibling has another parent, the element leaves its old parent, whose other children keep their order. It is placed right after the sibling under the sibling's parent, which becomes its parent, and the memory is erased. |
| Prioritize.RoundTrip | assets/js/util.js:616-654 | Moving an element to the front and then back gives back the page, memory included. |
| Prioritize.UndoStep | assets/js/util.js:616-654 | A step with the condition true followed by one with it false changes nothing, for any element not already moved. |
| Prioritize.Idempotent | assets/js/util.js:616-654 | Repeating a step with the same condition changes nothing more. |
| Prioritize.RunAgainMovesFirst | assets/js/util.js:617-635 | On children `[a, b]`, one call with the condition true gives `[b, a]` and leaves `a` unmarked. A second identical call moves `a` to the front, gives `[a, b]`, and marks `a` with `b`. |
| Prioritize.RunStash | assets/js/util.js:607-656 | Only elements that were passed in, or already remembered before, have a remembered sibling afterwards. |
| Prioritize.RestoreUndoesRun | assets/js/util.js:607-656 | For distinct elements not moved before, moving them to the front and then back one by one in the reverse order gives back the page. |
| Prioritize.SiblingsNotRestored | assets/js/util.js:607-656 | For adjacent siblings `b` and `c` after `a`, moving them to the front in the given order gives `[c, b, a]`, with `a` remembered for both. When the same list `[b, c]` is passed again with the condition false, the result is `[a, c, b]` with nothing remembered, so the original order is lost. |
| Prioritize.SiblingsRestoredInReverse | assets/js/util.js:607-656 | For the same siblings, moving them back in the reverse order gives back `[a, b, c]`. |
| Prioritize.SiblingsRestoredByQuery | assets/js/util.js:602-607 | When the second call is given `[c, b]`, which is the document order after the move and so what a selector string finds again, the page comes back as `[a, b, c]`. |

## Left out

- `submit.php` and the placeholder polyfill in `util.js` (lines 338-587) are not part of this model.
- The vendor CSS set on the panel and on its links (lines 176-181 and 186-188) has no effect on behaviour, so it is left out.
- Panel.Panel.Fire: the host may fire any armed timer at any time. Real timers fire in order of their deadlines, and wall-clock time is not modelled. Nothing in the source disarms a timer, so nothing in the model does either.
- Scrolling, form reset, `window.open` and the location change are recorded as `Action` values, not performed.
- Touch coordinates and layout measurements are real numbers, so fractional CSS pixels are covered. JavaScript's floating-point rounding in the subtractions is not modelled.
- The panel's layout (`scrollTop`, `outerHeight`, `scrollHeight`) is a parameter of `TouchMove`, because it is measured by the browser.
- Panel.Panel.TouchMove: before the first touch start the source's origin is `undefined`, not `null`. The guard then lets the event through, but every comparison with the resulting `NaN` is false. The model treats this the same as a cleared origin, with the same result.
- Options given as an explicit `null` are not modelled, because `$.extend` would copy them. An option left `undefined` is `None`.
- The target is an `Element` given by the caller. Selector strings, and the `typeof ... != 'jQuery'` re-wrapping at lines 140 and 603, are not modelled: that test is always true, so jQuery gets re-wrapped to the same elements.
- `$.prioritize` takes the elements as a sequence, so the selector lookup is not modelled. A selector string is looked up again in document order on every call. After a move to the front, moved siblings are therefore visited in the reverse order, and they are restored: `SiblingsRestoredByQuery` shows this for the page after the move. A stored jQuery object keeps its order, which is the case of `SiblingsNotRestored`.
- `visibleClass` is treated as one class name, not a space-separated list.
- Several panels on one page share the body's handlers. The model has one controller per `Panel` object, and each sees the page events on its own. In the source, one panel's toggle handler (lines 320-323) is delegated on the body and stops propagation. jQuery then skips the body's own handlers, so a click on a link to panel A does not run panel B's outside-click hide (lines 315-316). Likewise, a click or touch end inside panel A is stopped by A's own handler (lines 302-304) and never reaches B's body handler. In the model, a caller that passes such an event to B's controller as `OnPage` makes B hide, where the source would not.
- NavList.FragmentRoundTrip holds only for attribute values without a double quote. The source writes `target` and `href` without escaping, so a value containing `"` cannot be read back. Link text is not escaped either. It is the last thing in the fragment, so it reads back in full.
- Prioritize.Reinsert: when the remembered sibling is no longer on the page, the model leaves the element where it is. What jQuery's `insertAfter` does then depends on jQuery internals, which are not part of this model.
- Prioritize.Reinsert: when the remembered sibling has since been moved inside the element, as a child or deeper, the browser refuses the insertion and throws. The data entry is then not removed, and the rest of the loop over the elements is abandoned. The model has no notion of ancestry. It moves the element under its own descendant and erases the entry, and `WellFormed` does not rule out the resulting cycle.
- A link's `<li>` ancestors, its attributes and its text are inputs to `NavList`, because finding them is jQuery traversal.
