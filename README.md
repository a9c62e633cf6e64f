# Pick Your Pour: first step of the sign-up modal

This project models the first step of the "Pick Your Pour" sign-up modal
(`src/components/SignUpModal.js`). The step is a small form with three pieces
of component state: `username`, `email` and the progress-bar value `progress`.
Its handlers behave as follows:

- `isUnique` is a mock uniqueness check. It lower-cases the value and looks it
  up in two fixed lists.
- `handleNext` can end in three ways. It refuses locally when a field is
  empty. It closes the modal when the username or the email is already taken.
  Otherwise it announces step 2.
- The two blur handlers set the progress to 25 or 50.
- `bothFilled` decides whether the "Next" button is rendered.
- The inputs' `onChange` handlers and the "Cancel" button update the state
  directly.

The model does not perform `alert` or `onClose`. It records them instead: the
list of alert texts shown so far (`alerts`) and a flag saying that `onClose`
was called (`closed`).

Files and modules:

- `text.dfy`, module `Text`: the two JavaScript string built-ins the component
  uses. `trim` is `Trim`, which strips ECMAScript whitespace and line
  terminators. `toLowerCase` is `ToLower`.
- `uniqueness.dfy`, module `Uniqueness`: `isUnique` with its two fixed lists,
  and lemmas about it. The lemmas cover which values are taken, that case is
  ignored, and the case variants of the listed values.
- `signup_form.dfy`, module `SignUpForm`: the component as a state machine over
  a `Form` value. It has the decision `handleNext` makes (`Decide`), one
  function per handler, `Step` and `Run` over sequences of user events, and
  the lemmas about all of them.
- `signup_modal.dfy`, module `Modal`: class `SignUpModal`. Its fields are the
  component's state. Its methods are the handlers, written with the source's
  early returns. Each method is proved to leave the object in exactly the state
  the matching `SignUpForm` function gives. The object invariant `Valid()`
  says that the progress is 0, 25 or 50.

A taken username or email both alerts ("try logging in") and calls `onClose`
(lines 27-28 and 32-33), so `NextUsernameTaken` and `NextEmailTaken` state that
the modal closes.

## Model

| member | source | states |
|---|---|---|
| `Text.Trim` | src/components/SignUpModal.js:60 | `trim` gives the empty string exactly when every character is ECMAScript whitespace. Otherwise its result neither starts nor ends with whitespace. |
| `Text.TrimStart` | src/components/SignUpModal.js:60 | Only a whitespace prefix is removed. What remains is a suffix of the input that does not start with whitespace. |
| `Text.TrimEnd` | src/components/SignUpModal.js:60 | Only a whitespace suffix is removed. What remains is a prefix of the input that does not end with whitespace. |
| `Text.TrimKeepsMiddle` | src/components/SignUpModal.js:60 | `trim` keeps a contiguous slice of its input. Only whitespace comes before that slice, and only whitespace comes after it. |
| `Text.ToLower` | src/components/SignUpModal.js:15-16 | `toLowerCase` keeps the length and lowers each character on its own. |
| `Text.ToLowerEqualIff` | src/components/SignUpModal.js:15-16 | Two strings have the same lower-cased form exactly when they differ only in letter case. |
| `Uniqueness.UsernameTakenIff` | src/components/SignUpModal.js:13-15 | A username is taken exactly when it lower-cases to `existinguser` or `testuser`. |
| `Uniqueness.EmailTakenIff` | src/components/SignUpModal.js:14-16 | An email is taken exactly when it lower-cases to `existing@email.com` or `test@email.com`. |
| `Uniqueness.ListsAreLowerCase` | src/components/SignUpModal.js:13-14 | Every entry of both fixed lists is already lower case. |
| `Uniqueness.IsUnique` | src/components/SignUpModal.js:11-18 | A username or email is reported taken exactly when it is, up to letter case, an entry of its field's list. Any other field name is always reported unique. |
| `Uniqueness.ListedIffCaseVariant` | src/components/SignUpModal.js:15-16 | For a list of lower-case entries, the lower-cased value is in the list exactly when the value equals some entry up to letter case. |
| `Uniqueness.UniqueIgnoresCase` | src/components/SignUpModal.js:15-16 | For every field, two values that differ only in letter case get the same answer. |
| `Uniqueness.MixedCaseUsernameTaken` | src/components/SignUpModal.js:13-15 | `TestUser` is reported taken. |
| `Uniqueness.MixedCaseEmailTaken` | src/components/SignUpModal.js:14-16 | `Existing@Email.COM` is reported taken. |
| `Uniqueness.NewUsernameFree` | src/components/SignUpModal.js:15 | `newuser` is reported unique. |
| `Uniqueness.NewEmailFree` | src/components/SignUpModal.js:16 | `new@x.com` is reported unique. |
| `SignUpForm.BothFilled` | src/components/SignUpModal.js:60 | `bothFilled` holds exactly when both fields contain a character that is not whitespace. |
| `SignUpForm.Decide` | src/components/SignUpModal.js:21-38 | The outcome of `handleNext`. It is the required-fields refusal exactly when a field is empty. It is the username outcome exactly when both are non-empty and the username is listed. It is the email outcome exactly when the username is free and the email is listed. Otherwise it proceeds. |
| `SignUpForm.Next` | src/components/SignUpModal.js:21-38 | `handleNext` closes the modal exactly when it was closed already, or both fields are non-empty and one of the values is listed. It appends exactly the alert of its outcome, and it never changes the draft or the progress. |
| `SignUpForm.UsernameBlur` | src/components/SignUpModal.js:41-45 | Leaving the username field sets the progress to 25 when the username is filled in. Otherwise the state is unchanged. |
| `SignUpForm.EmailBlur` | src/components/SignUpModal.js:47-51 | Leaving the email field sets the progress to 50 when the email is filled in. Otherwise the state is unchanged. |
| `SignUpForm.ChangeUsername` | src/components/SignUpModal.js:77 | Typing into the username field sets the username to the typed value and changes nothing else. |
| `SignUpForm.ChangeEmail` | src/components/SignUpModal.js:86 | Typing into the email field sets the email to the typed value and changes nothing else. |
| `SignUpForm.Cancel` | src/components/SignUpModal.js:95 | "Cancel" always closes the modal, whatever its state, and changes nothing else. |
| `SignUpForm.Step` | src/components/SignUpModal.js:73-95 | Every user event keeps the progress at 0, 25 or 50 and never reopens the modal. A click on "Next" appends the alert of its outcome, and no other event adds an alert. |
| `SignUpForm.Run` | src/components/SignUpModal.js:21-95 | Along any sequence of events, a closed modal stays closed and the alerts shown earlier are kept, in order, as a prefix. |
| `SignUpForm.NextRequiredGuard` | src/components/SignUpModal.js:22-25 | With an empty username or email, the outcome is the required-fields refusal, reached without consulting `IsUnique`. The only change is the alert "Both fields are required!". The modal is not closed. |
| `SignUpForm.NextUsernameTaken` | src/components/SignUpModal.js:26-30 | A taken username gives the username-in-use alert and closes the modal. Every non-empty email gives this same outcome, so the email is never consulted. |
| `SignUpForm.NextEmailTaken` | src/components/SignUpModal.js:31-35 | A free username with a taken email gives the email-in-use alert and closes the modal. Nothing else changes. |
| `SignUpForm.NextProceeds` | src/components/SignUpModal.js:36-38 | When both values are non-empty and free, the alert is "Proceed to Step 2!". Username, email, progress and the open/closed state are unchanged. |
| `SignUpForm.VisibleNextPassesGuard` | src/components/SignUpModal.js:92-93 | Whenever the "Next" button is rendered, `handleNext` gets past the required-fields check. |
| `SignUpForm.GuardDoesNotTrim` | src/components/SignUpModal.js:22 | The converse fails, because the required-fields check does not trim. An email made of one no-break space passes it even though "Next" is not rendered for it. |
| `SignUpForm.UsernameBlurOnlyProgress` | src/components/SignUpModal.js:41-45 | The username blur changes nothing but the progress, and keeps the progress at 0, 25 or 50. |
| `SignUpForm.EmailBlurOnlyProgress` | src/components/SignUpModal.js:47-51 | The email blur changes nothing but the progress, and keeps the progress at 0, 25 or 50. |
| `SignUpForm.RunKeepsProgress` | src/components/SignUpModal.js:41-51 | Along any sequence of events, the progress stays at 0, 25 or 50. |
| `SignUpForm.ReachableProgress` | src/components/SignUpModal.js:8 | Starting from the freshly mounted modal (progress 0), only 0, 25 and 50 are ever shown. |
| `SignUpForm.OneAlertPerNext` | src/components/SignUpModal.js:21-38 | Along any sequence of events, the number of alerts grows by exactly the number of clicks on "Next". |
| `SignUpForm.RunAppend` | src/components/SignUpModal.js:73-95 | Handling two event sequences one after the other is the same as handling their concatenation. |
| `SignUpForm.EmailBlurAfterTyping` | src/components/SignUpModal.js:47-51 | Typing both fields and leaving a filled-in email gives progress 50. The modal stays open and no alert is shown. |
| `SignUpForm.BlurOverwrites` | src/components/SignUpModal.js:41-51 | With both fields filled in, after typing them, leaving the email shows 50, and leaving the username afterwards takes the bar back to 25. This is one order; `BlursOverwriteEachOther` states both. |
| `SignUpForm.BlursOverwriteEachOther` | src/components/SignUpModal.js:41-51 | With both fields filled in, whichever blur comes last decides the bar: 25 when the username blur is last, 50 when the email blur is last. |
| `SignUpForm.FreshSignUpProceeds` | src/components/SignUpModal.js:21-51 | Typing and leaving a filled-in free username, then a filled-in free email, then clicking "Next" ends at progress 50. The result is the alert "Proceed to Step 2!" with the modal open. |
| `SignUpForm.NewUserSignUpProceeds` | src/components/SignUpModal.js:21-51 | The concrete sign-up of `newuser` with `new@x.com` ends at progress 50, with the alert "Proceed to Step 2!" and the modal open. |
| `SignUpForm.TakenUsernameCloses` | src/components/SignUpModal.js:26-30 | A taken username with any non-empty email: clicking "Next" closes the modal with the username alert, and the draft stays as typed. |
| `Modal.SignUpModal.constructor` | src/components/SignUpModal.js:6-8 | On mount both fields are empty, the progress is 0, the modal is open and no alert has been shown. |
| `Modal.SignUpModal.NextVisible` | src/components/SignUpModal.js:60 | The "Next" button is rendered exactly when both fields contain a character that is not whitespace. |
| `Modal.SignUpModal.HandleNext` | src/components/SignUpModal.js:21-38 | `handleNext` leaves username, email and progress unchanged. It appends the alert of its outcome, and it sets `closed` exactly for the two in-use outcomes. |
| `Modal.SignUpModal.HandleUsernameBlur` | src/components/SignUpModal.js:41-45 | Only the progress may change. It becomes 25 when the username is filled in and is otherwise unchanged. |
| `Modal.SignUpModal.HandleEmailBlur` | src/components/SignUpModal.js:47-51 | Only the progress may change. It becomes 50 when the email is filled in and is otherwise unchanged. |
| `Modal.SignUpModal.ChangeUsernameTo` | src/components/SignUpModal.js:77 | Only the username changes, and it becomes the typed value. |
| `Modal.SignUpModal.ChangeEmailTo` | src/components/SignUpModal.js:86 | Only the email changes, and it becomes the typed value. |
| `Modal.SignUpModal.HandleCancel` | src/components/SignUpModal.js:95 | Only `closed` changes, and it becomes true. |
| `Modal.SignUpModal.ClickVisibleNext` | src/components/SignUpModal.js:92-93 | Clicking the rendered "Next" button never produces the required-fields alert. |
| `Modal.SignUpModal.Dispatch` | src/components/SignUpModal.js:73-95 | Each user action runs its wired handler, and the new state is `Step` applied to the old one. |

## Left out

- `Text.ToLower`: lowers only the ASCII letters A to Z. JavaScript's `toLowerCase` applies the full Unicode case mapping, and that mapping can change the length of a string. For `isUnique` the two agree on every input. The listed entries are ASCII and contain no `k`. The only non-ASCII character whose full lower-case form is entirely ASCII is U+212A KELVIN SIGN, which lowers to `k`. So no other non-ASCII input can lower-case to a listed entry under either mapping.
- Strings are sequences of Unicode scalar values, not UTF-16 code units. Lone surrogates are not modelled.
- React's asynchronous state updates are not modelled. Each event is handled against the state the previous events left. This is how the component behaves when each event is handled after the re-render caused by the one before.
- After `onClose`, the model keeps the modal and keeps handling events. Whatever the host does on `onClose` lies outside this component. `Dispatch` and `Run` also accept a "Next" click when the button is not rendered. `ClickVisibleNext` covers the rendered case.
- `alert` blocks in a browser. That is not modelled, and an alert is only recorded.
- The effect that plays `cork-pop.mp3` on mount (lines 54-57) is browser audio I/O.
- The JSX markup and CSS classes (lines 62-99) are not modelled, apart from the event wiring (`Dispatch`) and the condition for rendering "Next" (`NextVisible`). The rest is presentation logic and is left out: the bar's width (line 67), the rule that the percentage label is shown only when the progress is above 0 (line 68), and the label's position (line 69).
- The browser's sanitization of an `<input type="email">` value (it strips leading and trailing ASCII whitespace and line breaks) is not modelled. The typed value reaches the handlers as given.
- `backend/api/server.js` and `backend/api.js` are HTTP handlers over a PostgreSQL pool, so their answers come from an external database. The component does not call them: it uses the mock `isUnique`.
- `src/App.js`, `src/components/Welcome.js` and `public/service-worker.js` hold static markup and logging only.
- The later sign-up steps, the icon choices, image upload and phone formatting are not part of this model. This source does not contain them.
