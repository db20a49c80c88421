# Client carousel and phone formatter: a Dafny model

This project models the logic of a cleaning-service landing page. There are two parts.

The first is the client-logo carousel (`components/clients.tsx`). Eight client logos are split into slides of three (mobile and tablet widths) or four (desktop width). A current-slide index moves in four ways:

- the previous and next arrows, which wrap around;
- the dots, which jump to a slide;
- horizontal swipes longer than 50 pixels;
- an autoplay timer, which hovering or focusing pauses and leaving or blurring resumes.

When the number of logos per slide changes, the carousel goes back to slide 0.

The second is the contact section's `formatPhoneForWhatsApp` (`components/contact-section.tsx`). It deletes every `+` and every whitespace character from a phone number. The page never calls it: the WhatsApp button opens a fixed link.

The model has three modules:

- `Slicing` (`slicing.dfy`) covers JavaScript's `Array.prototype.slice`, `Math.ceil(n / k)` as `SlideCount`, and the list of slides the carousel renders. It proves that the slides partition the list.
- `Clients` (`carousel.dfy`) covers the roster and the width tiers. Its `Carousel` state record holds the React state and refs: the current slide, the autoplay flag, the two tier flags and the two touch-position registers. Every handler, timer callback and effect is an `Event` applied by the pure transition `Step`. `Run` applies a sequence of events.
- `ContactSection` (`contact.dfy`) has the formatter as written, as two passes. It is proved equal to a one-pass reference filter `KeepOnly`.

Two behaviours of the code are worth knowing:

- **Taps can navigate.** `handleTouchStart` (`components/clients.tsx:101-103`) does not reset `touchEndX`. A tap with no move is therefore compared with where the previous gesture ended, or with 0 before any gesture. `TapUsesPreviousEnd` proves that a tap navigates exactly when it lands more than 50 pixels from that point, forward or back. `FirstTapNavigates` proves that the first tap right of x = 50 on a freshly mounted carousel moves it forward.
- **The reset needs an actual change.** The reset effect is keyed on `itemsPerSlide` (`components/clients.tsx:152-154`), so a resize inside one tier keeps the current slide (`ResizeTo`).

## Model

| member | source | states |
|---|---|---|
| `Clients.GetItemsPerSlide` | components/clients.tsx:80-84 | the result is 3 or 4, and it is 4 exactly when neither the mobile nor the tablet flag is set |
| `Clients.WidthTiers` | components/clients.tsx:80-87 | for every viewport width: 3 logos per slide exactly below 1024 px and 4 exactly from 1024 px; so 3 slides below 1024 px, 2 from there, and always at least 1 |
| `Clients.ApplyWidth` | components/clients.tsx:30-33 | after a width reading the tier gives 3 logos per slide below 1024 px and 4 from there; nothing but the two tier flags changes |
| `Clients.Next` | components/clients.tsx:89-91 | an in-range index stays in range and moves to (index + 1) mod slide count; the last slide goes to 0 |
| `Clients.Prev` | components/clients.tsx:93-95 | an in-range index stays in range and moves to (index - 1) mod slide count; slide 0 goes to the last slide |
| `Clients.NextPrevInverse` | components/clients.tsx:89-95 | for every in-range index, previous after next and next after previous both give the index back |
| `Clients.NextSlide` | components/clients.tsx:89-91 | only the slide index changes; from a valid state the result is valid and one slide on, with wrap-around |
| `Clients.PrevSlide` | components/clients.tsx:93-95 | only the slide index changes; from a valid state the result is valid and one slide back, with wrap-around |
| `Clients.SwipeDecision` | components/clients.tsx:109-122 | forward exactly when start - end > 50, back exactly when start - end < -50, and no move exactly when \|start - end\| <= 50 |
| `Clients.SwipeNavigation` | components/clients.tsx:109-122 | at touch end, from a valid state: one slide forward past +50, one back past -50, no move within the threshold; only the slide index can change, and the result is valid |
| `Clients.TouchRegisters` | components/clients.tsx:101-107 | a touch start updates only the start register and a touch move only the end register |
| `Clients.TapUsesPreviousEnd` | components/clients.tsx:101-122 | a touch start then a touch end changes the slide exactly when the tap is more than 50 px from the previous end register; more than 50 px right of it moves one slide forward, more than 50 px left of it one slide back |
| `Clients.FirstTapNavigates` | components/clients.tsx:98-122 | on a freshly mounted carousel of any width, a tap at any x > 50 moves to slide 1 |
| `Clients.ResizeTo` | components/clients.tsx:152-154 | after a width reading the carousel has the width's tier: 3 logos on 3 slides below 1024 px, 4 logos on 2 slides from there; the index goes to 0 when the logos per slide change and is kept otherwise; autoplay and the touch registers are left alone, and a valid state stays valid |
| `Clients.TransientIndexOutOfRange` | components/clients.tsx:152-154 | a width reading without the reset effect can leave the index past the last slide (slide 2 of 3 becomes slide 2 of 2); the reset brings it back to 0 |
| `Clients.Mount` | components/clients.tsx:19-41 | a mounted carousel of any width starts valid, at slide 0, with autoplay on, and with the tier of its width |
| `Clients.ClickNavigation` | components/clients.tsx:233-266 | the arrows move one slide with wrap-around and pause autoplay; a dot for slide i goes to slide i, pauses autoplay and keeps the state valid |
| `Clients.TickMovesOnlyWhenPlaying` | components/clients.tsx:125-149 | a timer tick changes the slide exactly when autoplay is on, and then by one slide forward; when autoplay is off the state is unchanged |
| `Clients.PauseResumeOnlyToggleAutoplay` | components/clients.tsx:157-160 | mouse enter and focus set autoplay off; mouse leave, blur and a click's resume timer set it on; nothing else changes |
| `Clients.PausedTicksIdle` | components/clients.tsx:125-132 | while autoplay is off, any number of timer ticks leaves the carousel unchanged |
| `Clients.StepPreservesValid` | components/clients.tsx:89-160 | every event that can occur (a dot only for a slide that exists) keeps 0 <= index < slide count |
| `Clients.RunPreservesValid` | components/clients.tsx:89-266 | every sequence of events that can occur keeps the index in range |
| `Clients.RosterSlides` | components/clients.tsx:205-207 | the eight clients in slides of 3 give three slides of 3, 3 and 2, and in slides of 4 two full slides; both, joined, give the roster back |
| `Slicing.JsSlice` | components/clients.tsx:207 | `slice` never yields more than the list; with in-range non-negative bounds it yields exactly that stretch, and past the end it stops at the end |
| `Slicing.SlideCount` | components/clients.tsx:87 | the slide count t is the ceiling of n / k: t slides of k hold all n entries, and t - 1 slides do not |
| `Slicing.SlideCountUnique` | components/clients.tsx:87 | any count with the ceiling property equals the slide count |
| `Slicing.SlideSizes` | components/clients.tsx:205-207 | for any list and any k >= 1, every slide holds 1 to k entries, every slide but the last holds exactly k, and the last holds the remainder |
| `Slicing.SlidesPartition` | components/clients.tsx:205-207 | for any list and any k >= 1, the slides joined in order give exactly the list |
| `ContactSection.StripPlus` | components/contact-section.tsx:16 | the first pass leaves no `+`, never lengthens, and keeps every other character that occurs |
| `ContactSection.StripWhitespace` | components/contact-section.tsx:16 | the second pass leaves no whitespace, never lengthens, and keeps every other character that occurs |
| `ContactSection.FormatPhoneForWhatsApp` | components/contact-section.tsx:15-17 | the output holds no `+` and no whitespace, is no longer than the input, and holds exactly the input's characters that are neither |
| `ContactSection.FormatIsFilter` | components/contact-section.tsx:16 | the two passes equal the one-pass filter that keeps the characters that are neither `+` nor whitespace, in their original order |
| `ContactSection.FormatIdempotent` | components/contact-section.tsx:16 | formatting a formatted number changes nothing |
| `ContactSection.FormatLength` | components/contact-section.tsx:16 | the output is no longer than the input, and is as long as the input (and equal to it) exactly when the input has no `+` and no whitespace |

## Left out

- Timer mechanics: the 1500 ms autoplay delay, the clearing and rescheduling of the timer handle, and the 5000 ms resume timers of the arrows and dots. Autoplay is a flag. A `Tick` event is the pending timer firing. A `ResumeTimer` event is one of the click-scheduled resumes firing, and the environment may deliver it at any time. Several resume timers can be pending at once, and the code defines no order between them and hovering, so the model fixes none.
- The `resize` listener and the reads of `window.innerWidth`. These are DOM input: the width enters as the integer argument of a `Resize` event.
- The gap between the width reading and the reset effect. In the code, one render can show the old index against the new slide count before the effect keyed on `itemsPerSlide` runs. The model applies both in one step. `TransientIndexOutOfRange` shows the state that this skips.
- Touch coordinates are `real`. JavaScript's double-precision rounding of `clientX` and of the difference is not modelled.
- `Math.ceil` on a floating-point quotient is modelled as exact integer ceiling division. The two agree for every count and slide size involved.
- Rendering: animations, images, CSS classes, the `translateX` offset, and `getLogoWidth` (a CSS class choice).
- `useInView` and the choice of Spanish or English strings.
- `openWhatsApp`: the analytics call and `window.open` on a hardcoded link. These are foreign side effects, with no logic beyond the `contactInfo.whatsapp` check.
- The static address, phone and e-mail markup of the contact section.
- Component teardown (removing the listener and clearing the timer). It has no effect on the modelled state.
- `ContactSection.StripWhitespace`: Dafny strings are sequences of Unicode scalar values, while JavaScript strings and a regular expression without the `u` flag work on UTF-16 code units. The filter gives the same result on every string without lone surrogates; strings that contain lone surrogates are not modelled.
- `ContactSection.IsJsWhitespace`: the whitespace set follows the current Unicode space separators. Older engines also matched U+180E (Mongolian vowel separator), which the model treats as an ordinary character.
