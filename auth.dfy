/** The client's hidden sign-in (src/js/auth.js): taps on a secret dot open
    a login or a registration prompt, the signed-in user is kept in local
    storage, and admins get the edit toggle and an image-upload button. */
module Auth {
  import opened Js
  import opened Users

  /** Taps further apart than this, in milliseconds, start a new count. */
  const TapWindow := 1000
  /** Every tap schedules a reset of the count this many milliseconds later. */
  const TapResetDelay := 2000

  datatype Prompt = NoPrompt | LoginPrompt | RegisterPrompt

  /** The request `authenticateUser` sends. */
  datatype AuthRequest = LoginRequest(email: string) | RegisterRequest(email: string, name: string)

  /** How that request turned out: it threw, the server refused it
      (`success` false), or it succeeded with the server's reply. */
  datatype AuthResponse = NetworkFailure | Refused | Accepted(reply: AuthReply)

  /** The count after a tap at `now`: a fresh start when the previous tap
      is more than the window ago, one more otherwise. */
  function NextTapCount(count: int, lastTap: int, now: int): (c: int)
    ensures now - lastTap > TapWindow ==> c == 1
    ensures now - lastTap <= TapWindow ==> c == count + 1
  {
    (if now - lastTap > TapWindow then 0 else count) + 1
  }

  /** The third tap of a run asks for a login, the fourth for a registration. */
  function PromptFor(count: int): (p: Prompt)
    ensures p == LoginPrompt <==> count == 3
    ensures p == RegisterPrompt <==> count == 4
  {
    if count == 3 then LoginPrompt else if count == 4 then RegisterPrompt else NoPrompt
  }

  /** The reset timers still pending at `now`. */
  function NotDue(resets: seq<int>, now: int): (r: seq<int>)
    ensures |r| <= |resets|
    ensures forall x :: x in r ==> x in resets && x > now
    ensures forall x :: x in resets && x > now ==> x in r
    decreases |resets|
  {
    if resets == [] then []
    else (if resets[0] <= now then [] else [resets[0]]) + NotDue(resets[1..], now)
  }

  lemma {:induction false} NotDueKeepsLater(resets: seq<int>, now: int)
    requires forall x :: x in resets ==> x > now
    ensures NotDue(resets, now) == resets
    decreases |resets|
  {
    if resets != [] {
      assert resets[0] in resets;
      assert forall x :: x in resets[1..] ==> x in resets;
      NotDueKeepsLater(resets[1..], now);
      assert resets == [resets[0]] + resets[1..];
    }
  }

  lemma {:induction false} NotDueDropsDue(resets: seq<int>, now: int, x: int)
    requires x in resets && x <= now
    ensures |NotDue(resets, now)| < |resets|
    decreases |resets|
  {
    if resets[0] != x {
      NotDueDropsDue(resets[1..], now, x);
    }
  }

  /** The secret dot's counter: the count, the last tap's time, and the
      deadlines of the reset timers still pending. */
  datatype TapState = TapState(count: int, lastTap: int, resets: seq<int>)

  /** A tap at `now` on an idle page whose prompts, if any, are answered at
      once: the reset timers due by then fire first, and any of them zeroes
      the count; then the tap is counted and schedules its own reset. */
  function TapStep(s: TapState, now: int): (r: TapState)
    ensures r.lastTap == now && r.resets == NotDue(s.resets, now) + [now + TapResetDelay]
  {
    var pending := NotDue(s.resets, now);
    TapState(NextTapCount(if |pending| < |s.resets| then 0 else s.count, s.lastTap, now), now,
             pending + [now + TapResetDelay])
  }

  /** A due reset zeroes the count before the tap is counted; with none
      due, the tap counts on from the previous one. */
  lemma TapStepFires(s: TapState, now: int)
    ensures (exists x :: x in s.resets && x <= now) ==> TapStep(s, now).count == NextTapCount(0, s.lastTap, now)
    ensures (forall x :: x in s.resets ==> x > now) ==> TapStep(s, now).count == NextTapCount(s.count, s.lastTap, now)
  {
    if exists x :: x in s.resets && x <= now {
      var x :| x in s.resets && x <= now;
      NotDueDropsDue(s.resets, now, x);
    } else {
      NotDueKeepsLater(s.resets, now);
    }
  }

  /** The counts a series of taps produces, with the reset timers firing
      between them. */
  function TapCounts(s: TapState, times: seq<int>): (cs: seq<int>)
    ensures |cs| == |times|
    decreases |times|
  {
    if times == [] then []
    else
      var next := TapStep(s, times[0]);
      [next.count] + TapCounts(next, times[1..])
  }

  /** Taps each within the window of the previous one, all less than the
      reset delay after the first, and before any pending reset: each adds
      one to the count. */
  lemma {:induction false} TapRun(s: TapState, times: seq<int>)
    requires |times| > 0
    requires forall i :: 0 <= i < |times| - 1 ==> 0 <= times[i + 1] - times[i] <= TapWindow
    requires times[0] - s.lastTap <= TapWindow
    requires times[|times| - 1] - times[0] < TapResetDelay
    requires forall x :: x in s.resets ==> x > times[|times| - 1]
    ensures forall i :: 0 <= i < |times| ==> TapCounts(s, times)[i] == s.count + 1 + i
    decreases |times|
  {
    var next := TapStep(s, times[0]);
    assert forall x :: x in s.resets ==> x > times[0] by {
      if |times| > 1 {
        MonotoneSpan(times, 0, |times| - 1);
      }
    }
    TapStepFires(s, times[0]);
    if |times| > 1 {
      var rest := times[1..];
      MonotoneSpan(times, 1, |times| - 1);
      assert rest[|rest| - 1] == times[|times| - 1];
      assert forall x :: x in next.resets ==> x > rest[|rest| - 1] by {
        forall x | x in next.resets
          ensures x > rest[|rest| - 1]
        {
          if x !in s.resets {
            assert x == times[0] + TapResetDelay;
          }
        }
      }
      TapRun(next, rest);
    }
  }

  lemma {:induction false} MonotoneSpan(times: seq<int>, i: int, j: int)
    requires 0 <= i <= j < |times|
    requires forall k :: 0 <= k < |times| - 1 ==> 0 <= times[k + 1] - times[k]
    ensures times[i] <= times[j]
    decreases j - i
  {
    if i < j {
      MonotoneSpan(times, i + 1, j);
    }
  }

  /** A run of taps each within the window of the previous one, started
      after a pause and lasting less than the reset delay, with no reset
      pending in between, counts 1, 2, 3, ...: the third asks for a login,
      the fourth for a registration, and later ones ask nothing. */
  lemma QuickTaps(s: TapState, times: seq<int>)
    requires |times| > 0 && times[0] - s.lastTap > TapWindow
    requires forall i :: 0 <= i < |times| - 1 ==> 0 <= times[i + 1] - times[i] <= TapWindow
    requires times[|times| - 1] - times[0] < TapResetDelay
    requires forall x :: x in s.resets ==> x <= times[0] || x > times[|times| - 1]
    ensures forall i :: 0 <= i < |times| ==> TapCounts(s, times)[i] == i + 1
    ensures |times| >= 3 ==> PromptFor(TapCounts(s, times)[2]) == LoginPrompt
    ensures |times| >= 4 ==> PromptFor(TapCounts(s, times)[3]) == RegisterPrompt
    ensures forall i :: 4 <= i < |times| ==> PromptFor(TapCounts(s, times)[i]) == NoPrompt
  {
    var next := TapStep(s, times[0]);
    TapStepFires(s, times[0]);
    assert next.count == 1;
    if |times| > 1 {
      var rest := times[1..];
      MonotoneSpan(times, 1, |times| - 1);
      assert rest[|rest| - 1] == times[|times| - 1];
      TapRun(next, rest);
    }
  }

  /** The fourth tap of a quick run that ends 2000 ms or more after it
      began: the first tap's reset has fired by then, so the count restarts
      and no registration is asked for. */
  lemma SlowFourthTapRestarts()
    ensures TapCounts(TapState(0, 0, []), [10000, 10700, 11400, 12100]) == [1, 2, 3, 1]
    ensures PromptFor(TapCounts(TapState(0, 0, []), [10000, 10700, 11400, 12100])[3]) == NoPrompt
  {
    var s0 := TapState(0, 0, []);
    var s1 := TapStep(s0, 10000);
    assert s1 == TapState(1, 10000, [12000]);
    var s2 := TapStep(s1, 10700);
    assert s2 == TapState(2, 10700, [12000, 12700]);
    var s3 := TapStep(s2, 11400);
    assert s3 == TapState(3, 11400, [12000, 12700, 13400]);
    var s4 := TapStep(s3, 12100);
    assert 12000 in s3.resets;
    assert s4.count == 1;
    assert TapCounts(s3, [12100]) == [1];
    assert [11400, 12100][1..] == [12100];
    assert TapCounts(s2, [11400, 12100]) == [3, 1];
    assert [10700, 11400, 12100][1..] == [11400, 12100];
    assert TapCounts(s1, [10700, 11400, 12100]) == [2, 3, 1];
    assert [10000, 10700, 11400, 12100][1..] == [10700, 11400, 12100];
  }

  /** The login prompt's answer: `prompt` yields null when cancelled, and
      an empty answer is ignored. */
  function LoginAnswer(email: Option<string>): (r: Option<AuthRequest>)
    ensures r.Some? <==> email.Some? && email.value != ""
    ensures r.Some? ==> r.value == LoginRequest(email.value)
  {
    if email.Some? && email.value != "" then Some(LoginRequest(email.value)) else None
  }

  /** The registration prompts' answers: the email is asked only after a
      non-empty name. */
  function RegisterAnswers(name: Option<string>, email: Option<string>): (r: Option<AuthRequest>)
    ensures r.Some? <==> name.Some? && name.value != "" && email.Some? && email.value != ""
    ensures r.Some? ==> r.value == RegisterRequest(email.value, name.value)
  {
    if name.Some? && name.value != "" && email.Some? && email.value != "" then
      Some(RegisterRequest(email.value, name.value))
    else None
  }

  /** Whether a stored user gets the admin controls on page load, as
      written (auth.js:127-135): any stored user does. */
  function ShowsAdminUiAsWritten(stored: Option<User>): bool {
    stored.Some?
  }

  /** Whether a stored user gets the admin controls on page load, as
      intended: only an admin does, as after a login. */
  function ShowsAdminUi(stored: Option<User>): (shown: bool)
    ensures shown <==> stored.Some? && stored.value.isAdmin
  {
    stored.Some? && stored.value.isAdmin
  }

  /** On a reload, the intended check agrees with the login that stored
      the user, given the server's reply pairs `isAdmin` with the user's
      flag. */
  lemma ReloadAgreesWithLogin(reply: AuthReply)
    requires reply.isAdmin == reply.user.isAdmin
    ensures ShowsAdminUi(Some(reply.user)) == reply.isAdmin
  {
  }

  /** As written, a stored non-admin gets the admin controls on reload. */
  lemma StoredNonAdminGetsAdminUiAsWritten()
    ensures var u := User(2, "guest@example.com", Some("Guest"), false);
            ShowsAdminUiAsWritten(Some(u)) && !ShowsAdminUi(Some(u))
  {
  }

  class SecretAuth {
    var currentUser: Option<User>
    var tapCount: int
    var lastTapTime: int
    /** Deadlines of the pending reset timers. */
    var resets: seq<int>
    /** Local storage's `pitchDeckUser` entry. */
    var stored: Option<User>
    /** Whether the edit toggle is displayed. */
    var toggleShown: bool
    /** How many `uploadImageBtn` buttons the header holds. */
    var uploadButtons: nat
    /** Times of every tap on the secret dot. */
    ghost var taps: seq<int>
    /** Deadline of the reset timer the last tap scheduled. */
    ghost var lastReset: int
    /** Whether the page has the header controls and the edit toggle. */
    const hasHeader: bool
    const hasEditToggle: bool

    /** The count is the length of a run of recent taps, each within the
        window of the previous one, the last at `lastTapTime` with its reset,
        due no earlier than the reset delay after it, still pending; at most
        one upload button exists. */
    ghost predicate Sound()
      reads this
    {
      && 0 <= tapCount <= |taps|
      && (tapCount > 0 ==>
            taps[|taps| - 1] == lastTapTime && lastReset in resets && lastReset >= lastTapTime + TapResetDelay)
      && (forall i :: |taps| - tapCount < i < |taps| ==> taps[i] - taps[i - 1] <= TapWindow)
      && uploadButtons <= (if hasHeader then 1 else 0)
      && (toggleShown ==> hasEditToggle)
    }

    /** Once initialised, the signed-in user is the stored one. */
    ghost predicate Valid()
      reads this
    {
      Sound() && currentUser == stored
    }

    /** `new SecretAuth()` on a page whose local storage holds `stored`
        (auth.js:3-14): the stored user is signed in by `checkAuth` as
        written, so any stored user gets the admin controls. */
    constructor (stored: Option<User>, hasHeader: bool, hasEditToggle: bool)
      ensures Valid()
      ensures currentUser == stored && this.stored == stored
      ensures tapCount == 0 && lastTapTime == 0 && resets == []
      ensures toggleShown == (hasEditToggle && ShowsAdminUiAsWritten(stored))
      ensures uploadButtons == (if hasHeader && ShowsAdminUiAsWritten(stored) then 1 else 0)
    {
      this.hasHeader := hasHeader;
      this.hasEditToggle := hasEditToggle;
      this.stored := stored;
      currentUser := None;
      tapCount := 0;
      lastTapTime := 0;
      resets := [];
      toggleShown := false;
      uploadButtons := 0;
      taps := [];
      lastReset := 0;
      new;
      CheckAuthAsWritten();
      SetupAuthUI();
    }

    /** The same start-up with the intended check: the admin controls
        appear only for a stored admin. */
    constructor WithIntendedCheck(stored: Option<User>, hasHeader: bool, hasEditToggle: bool)
      ensures Valid()
      ensures currentUser == stored && this.stored == stored
      ensures tapCount == 0 && lastTapTime == 0 && resets == []
      ensures toggleShown == (hasEditToggle && ShowsAdminUi(stored))
      ensures uploadButtons == (if hasHeader && ShowsAdminUi(stored) then 1 else 0)
    {
      this.hasHeader := hasHeader;
      this.hasEditToggle := hasEditToggle;
      this.stored := stored;
      currentUser := None;
      tapCount := 0;
      lastTapTime := 0;
      resets := [];
      toggleShown := false;
      uploadButtons := 0;
      taps := [];
      lastReset := 0;
      new;
      CheckAuth();
      SetupAuthUI();
    }

    /** A click on the secret dot at `now` (auth.js:55-74). A login or
        registration prompt blocks the page for `promptOpen` milliseconds,
        and the reset timer is only scheduled once it closes. */
    method HandleSecretTap(now: int, promptOpen: nat) returns (prompt: Prompt)
      requires Valid()
      modifies this
      ensures Valid()
      ensures tapCount == NextTapCount(old(tapCount), old(lastTapTime), now) && lastTapTime == now
      ensures prompt == PromptFor(tapCount)
      ensures lastReset == now + (if prompt == NoPrompt then 0 else promptOpen) + TapResetDelay
      ensures resets == old(resets) + [lastReset] && taps == old(taps) + [now]
      ensures prompt == LoginPrompt ==>
        taps[|taps| - 1] - taps[|taps| - 2] <= TapWindow && taps[|taps| - 2] - taps[|taps| - 3] <= TapWindow
      ensures prompt == RegisterPrompt ==>
        forall i :: |taps| - 4 < i < |taps| ==> taps[i] - taps[i - 1] <= TapWindow
      ensures currentUser == old(currentUser) && stored == old(stored)
      ensures toggleShown == old(toggleShown) && uploadButtons == old(uploadButtons)
    {
      if now - lastTapTime > TapWindow {
        tapCount := 0;
      }
      tapCount := tapCount + 1;
      lastTapTime := now;
      taps := taps + [now];
      prompt := PromptFor(tapCount);
      var scheduled := if prompt == NoPrompt then now else now + promptOpen;
      lastReset := scheduled + TapResetDelay;
      resets := resets + [scheduled + TapResetDelay];
    }

    /** The reset timers due by `now` fire; any of them zeroes the count. */
    method TimerFires(now: int)
      requires Valid()
      modifies this
      ensures Valid()
      ensures resets == NotDue(old(resets), now)
      ensures tapCount == (if |resets| < |old(resets)| then 0 else old(tapCount))
      ensures now >= lastReset ==> tapCount == 0
      ensures lastTapTime == old(lastTapTime) && taps == old(taps) && lastReset == old(lastReset)
      ensures currentUser == old(currentUser) && stored == old(stored)
      ensures toggleShown == old(toggleShown) && uploadButtons == old(uploadButtons)
    {
      var remaining := NotDue(resets, now);
      if |remaining| < |resets| {
        tapCount := 0;
      } else if tapCount > 0 {
        assert lastReset in resets;
        if lastReset <= now {
          NotDueDropsDue(resets, now, lastReset);
        }
      }
      resets := remaining;
    }

    /** A tap at `now` after the page sat idle: the reset timers due by then
        fire, then the tap is handled. When it opens no prompt, or its
        prompt is answered at once, the counter moves as `TapStep` says. */
    method SecretTapAt(now: int, promptOpen: nat) returns (prompt: Prompt)
      requires Valid()
      modifies this
      ensures Valid()
      ensures prompt == PromptFor(tapCount)
      ensures tapCount == TapStep(TapState(old(tapCount), old(lastTapTime), old(resets)), now).count && lastTapTime == now
      ensures resets == NotDue(old(resets), now) + [now + (if prompt == NoPrompt then 0 else promptOpen) + TapResetDelay]
      ensures prompt == NoPrompt || promptOpen == 0 ==>
        TapState(tapCount, lastTapTime, resets) == TapStep(TapState(old(tapCount), old(lastTapTime), old(resets)), now)
      ensures currentUser == old(currentUser) && stored == old(stored)
      ensures toggleShown == old(toggleShown) && uploadButtons == old(uploadButtons)
    {
      TimerFires(now);
      prompt := HandleSecretTap(now, promptOpen);
    }

    /** `authenticateUser` once its request settled (auth.js:93-125): on
        success the user is signed in and stored, and admin controls are
        enabled when the reply says admin; otherwise nothing changes. */
    method AuthenticateUser(response: AuthResponse)
      requires Valid()
      modifies this
      ensures Valid()
      ensures response.Accepted? ==>
        currentUser == Some(response.reply.user) && stored == Some(response.reply.user)
      ensures response.Accepted? && response.reply.isAdmin ==>
        toggleShown == hasEditToggle && uploadButtons == (if hasHeader then 1 else 0)
      ensures !(response.Accepted? && response.reply.isAdmin) ==>
        toggleShown == old(toggleShown) && uploadButtons == old(uploadButtons)
      ensures !response.Accepted? ==> currentUser == old(currentUser) && stored == old(stored)
      ensures tapCount == old(tapCount) && lastTapTime == old(lastTapTime) && taps == old(taps) && resets == old(resets)
        && lastReset == old(lastReset)
    {
      if response.Accepted? {
        currentUser := Some(response.reply.user);
        stored := Some(response.reply.user);
        if response.reply.isAdmin {
          EnableAdminFeatures();
        }
      }
    }

    /** `checkAuth` as written (auth.js:127-135). */
    method CheckAuthAsWritten()
      requires Sound() && currentUser.None?
      modifies this
      ensures Valid() && stored == old(stored)
      ensures ShowsAdminUiAsWritten(stored) ==> toggleShown == hasEditToggle && uploadButtons == (if hasHeader then 1 else 0)
      ensures !ShowsAdminUiAsWritten(stored) ==> !toggleShown && uploadButtons == 0
      ensures tapCount == old(tapCount) && lastTapTime == old(lastTapTime) && taps == old(taps) && resets == old(resets)
        && lastReset == old(lastReset)
    {
      if stored.Some? {
        currentUser := stored;
        EnableAdminFeatures();
      } else {
        DisableAdminFeatures();
      }
    }

    /** `checkAuth` as intended: the stored user is signed in, and the
        admin controls are shown exactly when that user is an admin. */
    method CheckAuth()
      modifies this
      requires Sound()
      ensures Valid() && stored == old(stored)
      ensures toggleShown == (hasEditToggle && ShowsAdminUi(stored))
      ensures uploadButtons == (if hasHeader && ShowsAdminUi(stored) then 1 else 0)
      ensures tapCount == old(tapCount) && lastTapTime == old(lastTapTime) && taps == old(taps) && resets == old(resets)
        && lastReset == old(lastReset)
    {
      currentUser := stored;
      if ShowsAdminUi(stored) {
        EnableAdminFeatures();
      } else {
        DisableAdminFeatures();
      }
    }

    /** `setupAuthUI` (auth.js:137-141): nobody signed in, no admin controls. */
    method SetupAuthUI()
      requires Valid()
      modifies this
      ensures Valid()
      ensures currentUser.None? ==> !toggleShown && uploadButtons == 0
      ensures currentUser.Some? ==> toggleShown == old(toggleShown) && uploadButtons == old(uploadButtons)
      ensures currentUser == old(currentUser) && stored == old(stored)
      ensures tapCount == old(tapCount) && lastTapTime == old(lastTapTime) && taps == old(taps) && resets == old(resets)
        && lastReset == old(lastReset)
    {
      if currentUser.None? {
        DisableAdminFeatures();
      }
    }

    /** `logout` (auth.js:186-191). */
    method Logout()
      requires Valid()
      modifies this
      ensures Valid()
      ensures currentUser.None? && stored.None? && !toggleShown && uploadButtons == 0
      ensures tapCount == old(tapCount) && lastTapTime == old(lastTapTime) && taps == old(taps) && resets == old(resets)
        && lastReset == old(lastReset)
    {
      currentUser := None;
      stored := None;
      DisableAdminFeatures();
    }

    /** `enableAdminFeatures` (auth.js:143-152): show the edit toggle and
        add the upload button. */
    method EnableAdminFeatures()
      requires Sound()
      modifies this
      ensures Sound()
      ensures toggleShown == hasEditToggle && uploadButtons == (if hasHeader then 1 else 0)
      ensures currentUser == old(currentUser) && stored == old(stored)
      ensures tapCount == old(tapCount) && lastTapTime == old(lastTapTime) && taps == old(taps) && resets == old(resets)
        && lastReset == old(lastReset)
    {
      if hasEditToggle {
        toggleShown := true;
      }
      EnableImageUpload();
    }

    /** `enableImageUpload` (auth.js:166-176): add the header's upload
        button unless one is already there, so repeating it adds nothing. */
    method EnableImageUpload()
      requires Sound()
      modifies this
      ensures Sound()
      ensures uploadButtons == (if hasHeader then 1 else 0)
      ensures old(uploadButtons) > 0 ==> uploadButtons == old(uploadButtons)
      ensures toggleShown == old(toggleShown) && currentUser == old(currentUser) && stored == old(stored)
      ensures tapCount == old(tapCount) && lastTapTime == old(lastTapTime) && taps == old(taps) && resets == old(resets)
        && lastReset == old(lastReset)
    {
      if hasHeader && uploadButtons == 0 {
        uploadButtons := 1;
      }
    }

    /** `disableAdminFeatures` (auth.js:154-164): hide the edit toggle and
        remove the upload button. */
    method DisableAdminFeatures()
      requires Sound()
      modifies this
      ensures Sound()
      ensures !toggleShown && uploadButtons == 0
      ensures currentUser == old(currentUser) && stored == old(stored)
      ensures tapCount == old(tapCount) && lastTapTime == old(lastTapTime) && taps == old(taps) && resets == old(resets)
        && lastReset == old(lastReset)
    {
      if hasEditToggle {
        toggleShown := false;
      }
      if uploadButtons > 0 {
        uploadButtons := uploadButtons - 1;
      }
    }
  }
}
