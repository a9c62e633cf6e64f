/** The first step of the sign-up modal as a state machine over values: the
    draft (username, email, progress) plus the two effects the handlers
    trigger, closing the modal and showing an alert, recorded as a `closed`
    flag and the list of alert texts shown so far. */
module SignUpForm {
  import opened Text
  import opened Uniqueness

  const RequiredMessage: string := "Both fields are required!"
  const UsernameInUseMessage: string := "Username already in use\U{2014}try logging in"
  const EmailInUseMessage: string := "Email already in use\U{2014}try logging in"
  const ProceedMessage: string := "Proceed to Step 2!"

  /** The progress-bar values the blur handlers set. */
  const UsernameStepProgress: int := 25
  const EmailStepProgress: int := 50

  /** The three outcomes of `handleNext`, with the refusal split by its cause. */
  datatype NextOutcome = FieldsRequired | UsernameInUse | EmailInUse | Proceed

  /** The alert `handleNext` shows for an outcome. */
  function Message(o: NextOutcome): string {
    match o
    case FieldsRequired => RequiredMessage
    case UsernameInUse => UsernameInUseMessage
    case EmailInUse => EmailInUseMessage
    case Proceed => ProceedMessage
  }

  /** The outcomes after which `handleNext` calls `onClose`. */
  predicate Closes(o: NextOutcome) {
    o == UsernameInUse || o == EmailInUse
  }

  /** The decision `handleNext` makes: required fields first (a JavaScript string
      is falsy only when empty), then the username, then the email. */
  function Decide(username: string, email: string): (o: NextOutcome)
    ensures o == FieldsRequired <==> username == "" || email == ""
    ensures o == UsernameInUse
        <==> username != "" && email != "" && ToLower(username) in ExistingUsers
    ensures o == EmailInUse
        <==> username != "" && email != "" && ToLower(username) !in ExistingUsers
             && ToLower(email) in ExistingEmails
    ensures o == Proceed
        <==> username != "" && email != "" && ToLower(username) !in ExistingUsers
             && ToLower(email) !in ExistingEmails
  {
    if username == "" || email == "" then FieldsRequired
    else if !IsUnique("username", username) then UsernameInUse
    else if !IsUnique("email", email) then EmailInUse
    else Proceed
  }

  /** The component state and its recorded effects. */
  datatype Form = Form(username: string, email: string, progress: int,
                       closed: bool, alerts: seq<string>)

  /** The state right after the modal mounts. */
  const Initial: Form := Form("", "", 0, false, [])

  /** A string that `trim` does not reduce to the empty string. */
  predicate IsFilled(s: string) {
    !IsBlank(s)
  }

  /** `bothFilled`: the condition under which the "Next" button is rendered. */
  function BothFilled(username: string, email: string): (r: bool)
    ensures r <==> IsFilled(username) && IsFilled(email)
  {
    Trim(username) != "" && Trim(email) != ""
  }

  /** `handleNext`: exactly one alert, the one of the outcome; the modal closes
      exactly when both fields are non-empty and one of the values is listed;
      the draft and the progress are never touched. */
  function Next(f: Form): (g: Form)
    ensures g.closed
        <==> f.closed || (f.username != "" && f.email != ""
                          && (ToLower(f.username) in ExistingUsers
                              || ToLower(f.email) in ExistingEmails))
    ensures g.username == f.username && g.email == f.email && g.progress == f.progress
    ensures g.alerts == f.alerts + [Message(Decide(f.username, f.email))]
  {
    var o := Decide(f.username, f.email);
    f.(closed := f.closed || Closes(o), alerts := f.alerts + [Message(o)])
  }

  /** `handleUsernameBlur`: progress becomes 25 when the username is filled in,
      and is otherwise left as it is. */
  function UsernameBlur(f: Form): (g: Form)
    ensures g == if IsFilled(f.username) then f.(progress := UsernameStepProgress) else f
  {
    if Trim(f.username) != "" then f.(progress := UsernameStepProgress) else f
  }

  /** `handleEmailBlur`: progress becomes 50 when the email is filled in,
      and is otherwise left as it is. */
  function EmailBlur(f: Form): (g: Form)
    ensures g == if IsFilled(f.email) then f.(progress := EmailStepProgress) else f
  {
    if Trim(f.email) != "" then f.(progress := EmailStepProgress) else f
  }

  /** The username input's `onChange`: the username becomes the typed value and
      nothing else changes. */
  function ChangeUsername(f: Form, value: string): (g: Form)
    ensures g.username == value && g.(username := f.username) == f
  {
    f.(username := value)
  }

  /** The email input's `onChange`: the email becomes the typed value and
      nothing else changes. */
  function ChangeEmail(f: Form, value: string): (g: Form)
    ensures g.email == value && g.(email := f.email) == f
  {
    f.(email := value)
  }

  /** The "Cancel" button, which calls `onClose` directly: the modal is closed,
      whatever state it was in, and nothing else changes. */
  function Cancel(f: Form): (g: Form)
    ensures g.closed && g.(closed := f.closed) == f
  {
    f.(closed := true)
  }

  /** What the user can do to the form. */
  datatype Event =
    | TypeUsername(value: string)
    | TypeEmail(value: string)
    | LeaveUsername
    | LeaveEmail
    | ClickNext
    | ClickCancel

  /** One user action, handled by the handler the markup wires to it. Every
      action keeps the progress among 0, 25 and 50, none reopens the modal, and
      only "Next" shows an alert, exactly one. */
  function Step(f: Form, e: Event): (g: Form)
    ensures ValidProgress(f.progress) ==> ValidProgress(g.progress)
    ensures f.closed ==> g.closed
    ensures g.alerts
         == f.alerts + (if e == ClickNext then [Message(Decide(f.username, f.email))] else [])
  {
    match e
    case TypeUsername(v) => ChangeUsername(f, v)
    case TypeEmail(v) => ChangeEmail(f, v)
    case LeaveUsername => UsernameBlur(f)
    case LeaveEmail => EmailBlur(f)
    case ClickNext => Next(f)
    case ClickCancel => Cancel(f)
  }

  /** The state after a sequence of events, first event first. Once closed the
      modal stays closed, and the alerts shown earlier are kept. */
  function Run(f: Form, es: seq<Event>): (g: Form)
    ensures f.closed ==> g.closed
    ensures |f.alerts| <= |g.alerts| && g.alerts[..|f.alerts|] == f.alerts
    decreases |es|
  {
    if es == [] then f else Run(Step(f, es[0]), es[1..])
  }

  /** The values the progress bar can show. */
  predicate ValidProgress(p: int) {
    p == 0 || p == UsernameStepProgress || p == EmailStepProgress
  }

  /** The number of clicks on "Next" in a sequence of events. */
  function NextClicks(es: seq<Event>): nat
    decreases |es|
  {
    if es == [] then 0 else (if es[0] == ClickNext then 1 else 0) + NextClicks(es[1..])
  }

  // ---------------------------------------------------------------------------
  // handleNext

  /** Missing username or email: refused locally with the required-fields alert,
      before `IsUnique` is consulted, and nothing else changes (the modal stays
      as it was). */
  lemma NextRequiredGuard(f: Form)
    requires f.username == "" || f.email == ""
    ensures Decide(f.username, f.email) == FieldsRequired
    ensures Next(f) == f.(alerts := f.alerts + [RequiredMessage])
  {
  }

  /** Taken username: the username alert, and the modal closes; the email is not
      looked at, so any non-empty email gives the same outcome. */
  lemma NextUsernameTaken(f: Form)
    requires f.username != "" && f.email != ""
    requires ToLower(f.username) in ExistingUsers
    ensures Next(f) == f.(closed := true, alerts := f.alerts + [UsernameInUseMessage])
    ensures forall email :: email != "" ==> Decide(f.username, email) == UsernameInUse
  {
  }

  /** Free username, taken email: the email alert, and the modal closes. */
  lemma NextEmailTaken(f: Form)
    requires f.username != "" && f.email != ""
    requires ToLower(f.username) !in ExistingUsers
    requires ToLower(f.email) in ExistingEmails
    ensures Next(f) == f.(closed := true, alerts := f.alerts + [EmailInUseMessage])
  {
  }

  /** Both filled in and both free: the proceed alert; username, email, progress
      and the open/closed state are all left as they were. */
  lemma NextProceeds(f: Form)
    requires f.username != "" && f.email != ""
    requires ToLower(f.username) !in ExistingUsers
    requires ToLower(f.email) !in ExistingEmails
    ensures Next(f) == f.(alerts := f.alerts + [ProceedMessage])
  {
  }

  /** Whenever "Next" is shown (both fields filled in, which is what `BothFilled`
      holds exactly for), `handleNext` gets past the required-fields check. */
  lemma VisibleNextPassesGuard(f: Form)
    requires IsFilled(f.username) && IsFilled(f.email)
    ensures Decide(f.username, f.email) != FieldsRequired
  {
    FilledIsNonEmpty(f.username);
    FilledIsNonEmpty(f.email);
  }

  /** A filled-in string is in particular not empty. */
  lemma FilledIsNonEmpty(s: string)
    requires IsFilled(s)
    ensures s != ""
  {
  }

  /** The converse does not hold: the required-fields check does not trim, so an
      email of one no-break space passes it although "Next" is not shown for it. */
  lemma GuardDoesNotTrim()
    ensures !BothFilled("x", "\U{A0}")
    ensures Decide("x", "\U{A0}") == Proceed
  {
    assert !IsBlank("x") by { assert !IsWhitespace("x"[0]); }
    ToLowerOfLowerCase("x");
    ToLowerOfLowerCase("\U{A0}");
  }

  // ---------------------------------------------------------------------------
  // Blur, typing and cancel

  /** Leaving the username field never touches anything but the progress. */
  lemma UsernameBlurOnlyProgress(f: Form)
    ensures UsernameBlur(f).(progress := f.progress) == f
    ensures ValidProgress(f.progress) ==> ValidProgress(UsernameBlur(f).progress)
  {
  }

  /** Leaving the email field never touches anything but the progress. */
  lemma EmailBlurOnlyProgress(f: Form)
    ensures EmailBlur(f).(progress := f.progress) == f
    ensures ValidProgress(f.progress) ==> ValidProgress(EmailBlur(f).progress)
  {
  }

  // ---------------------------------------------------------------------------
  // Event sequences

  /** Progress stays among 0, 25 and 50 along any sequence of events. */
  lemma {:induction false} RunKeepsProgress(f: Form, es: seq<Event>)
    requires ValidProgress(f.progress)
    ensures ValidProgress(Run(f, es).progress)
    decreases |es|
  {
    if es != [] {
      RunKeepsProgress(Step(f, es[0]), es[1..]);
    }
  }

  /** From the freshly mounted modal only 0, 25 and 50 are ever shown. */
  lemma ReachableProgress(es: seq<Event>)
    ensures ValidProgress(Run(Initial, es).progress)
  {
    RunKeepsProgress(Initial, es);
  }

  /** Each click on "Next" shows exactly one alert and no other event shows any. */
  lemma {:induction false} OneAlertPerNext(f: Form, es: seq<Event>)
    ensures |Run(f, es).alerts| == |f.alerts| + NextClicks(es)
    decreases |es|
  {
    if es != [] {
      var g := Step(f, es[0]);
      OneAlertPerNext(g, es[1..]);
      assert NextClicks(es) == (if es[0] == ClickNext then 1 else 0) + NextClicks(es[1..]);
      assert Run(f, es) == Run(g, es[1..]);
    }
  }

  /** One event taken off the front of a sequence. */
  lemma RunStep(f: Form, es: seq<Event>)
    requires es != []
    ensures Run(f, es) == Run(Step(f, es[0]), es[1..])
  {
  }

  /** Running two sequences one after the other is running their concatenation. */
  lemma {:induction false} RunAppend(f: Form, xs: seq<Event>, ys: seq<Event>)
    ensures Run(f, xs + ys) == Run(Run(f, xs), ys)
    decreases |xs|
  {
    if xs != [] {
      assert (xs + ys)[0] == xs[0] && (xs + ys)[1..] == xs[1..] + ys;
      RunAppend(Step(f, xs[0]), xs[1..], ys);
    } else {
      assert xs + ys == ys;
    }
  }

  /** Typing both fields and leaving the email shows the bar at 50%. */
  lemma EmailBlurAfterTyping(username: string, email: string)
    requires IsFilled(email)
    ensures Run(Initial, [TypeUsername(username), TypeEmail(email), LeaveEmail])
         == Form(username, email, 50, false, [])
  {
    var f0 := Form(username, "", 0, false, []);
    var es := [TypeUsername(username), TypeEmail(email), LeaveEmail];
    RunStep(Initial, es);
    RunStep(f0, es[1..]);
    assert es[1..][1..] == [LeaveEmail];
  }

  /** Either blur overwrites the other's value: leaving the username after the
      email takes the bar back from 50 to 25. */
  lemma BlurOverwrites(username: string, email: string)
    requires IsFilled(username) && IsFilled(email)
    ensures Run(Initial, [TypeUsername(username), TypeEmail(email), LeaveEmail]).progress == 50
    ensures Run(Initial, [TypeUsername(username), TypeEmail(email), LeaveEmail, LeaveUsername]).progress == 25
  {
    var es := [TypeUsername(username), TypeEmail(email), LeaveEmail];
    EmailBlurAfterTyping(username, email);
    RunAppend(Initial, es, [LeaveUsername]);
    assert es + [LeaveUsername]
        == [TypeUsername(username), TypeEmail(email), LeaveEmail, LeaveUsername];
  }

  /** Leaving either field overwrites the value the other blur set: with both
      fields filled in, whichever blur comes last decides the bar. */
  lemma BlursOverwriteEachOther(f: Form)
    requires IsFilled(f.username) && IsFilled(f.email)
    ensures UsernameBlur(EmailBlur(f)).progress == UsernameStepProgress
    ensures EmailBlur(UsernameBlur(f)).progress == EmailStepProgress
  {
  }

  /** Filling in a free username and a free email, leaving each field, and
      clicking "Next" shows the bar at 50% and proceeds with the modal open. */
  lemma FreshSignUpProceeds(username: string, email: string)
    requires IsFilled(username) && IsFilled(email)
    requires IsUnique("username", username) && IsUnique("email", email)
    ensures Run(Initial, [TypeUsername(username), LeaveUsername,
                          TypeEmail(email), LeaveEmail, ClickNext])
         == Form(username, email, 50, false, [ProceedMessage])
  {
    var es := [TypeUsername(username), LeaveUsername,
               TypeEmail(email), LeaveEmail, ClickNext];
    var f0 := Form(username, "", 0, false, []);
    var f1 := f0.(progress := 25);
    var f2 := f1.(email := email);
    var f3 := f2.(progress := 50);
    FilledIsNonEmpty(username);
    FilledIsNonEmpty(email);
    assert Step(Initial, es[0]) == f0;
    assert Step(f0, es[1]) == f1;
    assert Step(f1, es[2]) == f2;
    assert Step(f2, es[3]) == f3;
    NextProceeds(f3);
    assert Step(f3, es[4]) == Form(username, email, 50, false, [ProceedMessage]);
    RunStep(Initial, es);
    RunStep(f0, es[1..]);
    RunStep(f1, es[2..]);
    RunStep(f2, es[3..]);
    RunStep(f3, es[4..]);
  }

  /** A taken username (in any letter case) with a non-empty email: "Next" closes the
      modal with the username alert and leaves the draft as typed. */
  lemma TakenUsernameCloses(username: string, email: string)
    requires !IsUnique("username", username) && email != ""
    ensures Run(Initial, [TypeUsername(username), TypeEmail(email), ClickNext])
         == Form(username, email, 0, true, [UsernameInUseMessage])
  {
    var es := [TypeUsername(username), TypeEmail(email), ClickNext];
    var f := Form(username, email, 0, false, []);
    assert username != "";
    RunStep(Initial, es);
    RunStep(ChangeUsername(Initial, username), es[1..]);
    RunStep(f, es[2..]);
    NextUsernameTaken(f);
  }

  /** The sign-up of a new user: "newuser" and "new@x.com" reach 50% and proceed. */
  lemma NewUserSignUpProceeds()
    ensures Run(Initial, [TypeUsername("newuser"), LeaveUsername,
                          TypeEmail("new@x.com"), LeaveEmail, ClickNext])
         == Form("newuser", "new@x.com", 50, false, [ProceedMessage])
  {
    assert IsFilled("newuser") && IsFilled("new@x.com") by {
      assert !IsWhitespace("newuser"[0]) && !IsWhitespace("new@x.com"[0]);
    }
    NewUsernameFree();
    NewEmailFree();
    FreshSignUpProceeds("newuser", "new@x.com");
  }
}
