/**
 * The login loop of `automated_login`: at most two attempts, each of which
 * reads the captcha image source, makes it absolute, solves the captcha (URL
 * method first, screenshot method as fallback), types the answer key by key and
 * judges the attempt by the exact URL the portal lands on.
 * The browser is abstracted as one `AttemptInput` per attempt: what the page
 * shows and what the AI and the portal answer.
 */
module Login {
  import opened Wrappers
  import opened Chars
  import opened CaptchaText
  import opened CaptchaTyping
  import opened CaptchaSolver
  import Config

  /** Scheme and host the portal's relative captcha sources are resolved against. */
  const PortalOrigin: string := "https://student.jgianveshana.com"

  /** The loop tries exactly this many times. */
  const MaxLoginAttempts: nat := 2

  /** The three branches that make the captcha `src` attribute absolute. */
  function AbsoluteCaptchaUrl(src: string): (url: string)
    ensures StartsWith(url, "http")
    ensures |src| <= |url| && url[|url| - |src|..] == src
    ensures StartsWith(src, "http") <==> url == src
    ensures !StartsWith(src, "http") ==> StartsWith(url, PortalOrigin + "/")
  {
    if StartsWith(src, "http") then src
    else
      OriginLayout(src);
      if StartsWith(src, "/") then PortalOrigin + src
      else PortalOrigin + "/" + src
  }

  /** The origin begins with "http", whatever follows it. */
  lemma OriginLayout(src: string)
    ensures StartsWith(PortalOrigin + src, "http")
    ensures StartsWith(PortalOrigin + "/" + src, "http")
    ensures StartsWith(src, "/") ==> StartsWith(PortalOrigin + src, PortalOrigin + "/")
    ensures StartsWith(PortalOrigin + "/" + src, PortalOrigin + "/")
    ensures !StartsWith(src, "http") ==> PortalOrigin + src != src && PortalOrigin + "/" + src != src
  {
    assert PortalOrigin[..4] == "http";
    assert (PortalOrigin + src)[..4] == PortalOrigin[..4];
    assert (PortalOrigin + "/" + src)[..4] == PortalOrigin[..4];
    assert (PortalOrigin + "/" + src)[..|PortalOrigin + "/"|] == PortalOrigin + "/";
    if StartsWith(src, "/") {
      assert src[..1] == "/";
      assert (PortalOrigin + src)[..|PortalOrigin + "/"|] == PortalOrigin + src[..1];
    }
  }

  /** Making an absolute URL absolute again changes nothing. */
  lemma AbsoluteIdempotent(src: string)
    ensures AbsoluteCaptchaUrl(AbsoluteCaptchaUrl(src)) == AbsoluteCaptchaUrl(src)
  {
  }

  /** A relative source is placed under the portal origin, with exactly one '/' between. */
  lemma RelativeUnderOrigin(src: string)
    requires !StartsWith(src, "http")
    ensures StartsWith(src, "/") ==> AbsoluteCaptchaUrl(src) == PortalOrigin + "/" + src[1..]
    ensures !StartsWith(src, "/") ==> AbsoluteCaptchaUrl(src) == PortalOrigin + "/" + src
  {
    if StartsWith(src, "/") {
      assert src == "/" + src[1..];
      assert PortalOrigin + src == PortalOrigin + "/" + src[1..];
    }
  }

  /** What the captcha image looks like to one attempt. */
  datatype CaptchaImage = CaptchaImage(
    src: Option<string>,            // the `src` attribute; None when the attribute is missing
    downloadStatus: int,            // HTTP status of the image download
    urlReplies: seq<Option<string>>,// the AI's replies to the URL method, one per retry
    screenshotReply: Option<string>)// the AI's reply to the screenshot method

  /** The world as one attempt sees it. */
  datatype AttemptInput = AttemptInput(
    image: Option<CaptchaImage>,    // None when the page has no captcha image
    landedUrl: Option<string>)      // the URL after submitting; None when the page raised

  /** How one attempt ended. */
  datatype AttemptOutcome =
    | NoCaptchaImage
    | MissingSource                 // `None.startswith` raises, the attempt is abandoned
    | Unsolved(captchaUrl: string)  // both solving methods came back empty
    | SubmitFailed(captchaUrl: string, typed: string)
    | Submitted(captchaUrl: string, typed: string, landed: string)

  /** The URL method's answer, or else the screenshot method's, or "" when both fail. */
  function CaptchaForAttempt(image: CaptchaImage): string {
    var viaUrl := SolveByUrl(image.downloadStatus, image.urlReplies);
    if viaUrl != [] then viaUrl
    else
      match SolveWithScreenshot(image.screenshotReply)
      case None => []
      case Some(text) => text
  }

  /** Any captcha an attempt submits is a cleaned code: 1 to 10 of A-Z and 0-9. */
  lemma CaptchaIsCode(image: CaptchaImage)
    ensures var c := CaptchaForAttempt(image); c != [] ==> |c| <= 10 && CaptchaChars(c)
  {
    var viaUrl := SolveByUrl(image.downloadStatus, image.urlReplies);
    if viaUrl != [] {
      UrlAnswerIsCode(image.downloadStatus, image.urlReplies);
    } else if image.screenshotReply.Some? && image.screenshotReply.value != [] {
      CleanShape(image.screenshotReply.value);
    }
  }

  /** A non-empty answer of the URL method is a cleaned code of 4 to 10 characters. */
  lemma UrlAnswerIsCode(status: int, replies: seq<Option<string>>)
    ensures var a := SolveByUrl(status, replies); a != [] ==> 4 <= |a| <= 10 && CaptchaChars(a)
  {
    var a := SolveByUrl(status, replies);
    if a != [] {
      var cleaned := CleanedReplies(replies);
      var i :| 0 <= i < |cleaned| && cleaned[i] == Some(a) && Accepted(cleaned[i]);
      CleanedRepliesAt(replies, i);
      var text := replies[i].value;
      CleanShape(Trim(text));
    }
  }

  /** One attempt of the loop body. */
  function RunAttempt(input: AttemptInput): AttemptOutcome {
    match input.image
    case None => NoCaptchaImage
    case Some(image) =>
      match image.src
      case None => MissingSource
      case Some(src) =>
        var url := AbsoluteCaptchaUrl(src);
        var captcha := CaptchaForAttempt(image);
        if captcha == [] then Unsolved(url)
        else
          var typed := Typed(Keystrokes(captcha));
          match input.landedUrl
          case None => SubmitFailed(url, typed)
          case Some(landed) => Submitted(url, typed, landed)
  }

  /** Whether an attempt ended on the dashboard. */
  predicate LoggedIn(outcome: AttemptOutcome) {
    outcome.Submitted? && outcome.landed == Config.LoginSuccessUrl
  }

  /** The outcome of the whole loop: the verdict and the attempts that were made. */
  datatype LoginResult = LoginResult(success: bool, outcomes: seq<AttemptOutcome>)

  /** The outcomes every attempt would have, in order (see `OutcomesAt`). */
  function Outcomes(inputs: seq<AttemptInput>): (outcomes: seq<AttemptOutcome>)
    ensures |outcomes| == |inputs|
  {
    if inputs == [] then [] else [RunAttempt(inputs[0])] + Outcomes(inputs[1..])
  }

  lemma {:induction false} OutcomesAt(inputs: seq<AttemptInput>, k: nat)
    requires k < |inputs|
    ensures Outcomes(inputs)[k] == RunAttempt(inputs[k])
  {
    if k > 0 {
      OutcomesAt(inputs[1..], k - 1);
    }
  }

  /** The attempts made from `k` on: the loop returns right after the first one `ok` accepts. */
  function AttemptsFrom<T>(ok: T -> bool, xs: seq<T>, k: nat): (made: seq<T>)
    requires k <= |xs|
    ensures |made| <= |xs| - k
    ensures made == xs[k..k + |made|]
    ensures forall j :: 0 <= j < |made| - 1 ==> !ok(made[j])
    ensures (|made| > 0 && ok(made[|made| - 1]))
         || (|made| == |xs| - k && forall j :: 0 <= j < |made| ==> !ok(made[j]))
    decreases |xs| - k
  {
    if k == |xs| then []
    else if ok(xs[k]) then [xs[k]]
    else [xs[k]] + AttemptsFrom(ok, xs, k + 1)
  }

  /** The attempts end on an accepted one exactly when some attempt would be accepted. */
  lemma EndsAcceptedIff<T>(ok: T -> bool, xs: seq<T>)
    ensures var made := AttemptsFrom(ok, xs, 0);
      (|made| > 0 && ok(made[|made| - 1])) <==> exists i :: 0 <= i < |xs| && ok(xs[i])
  {
    var made := AttemptsFrom(ok, xs, 0);
    if |made| > 0 && ok(made[|made| - 1]) {
      assert made[|made| - 1] == xs[|made| - 1];
    } else {
      assert xs[0..|xs|] == xs;
      assert made == xs;
    }
  }

  /** The loop from attempt `k` on. */
  function LoginFrom(outcomes: seq<AttemptOutcome>, k: nat): (r: LoginResult)
    requires k <= |outcomes|
    ensures |r.outcomes| <= |outcomes| - k
    ensures r.outcomes == outcomes[k..k + |r.outcomes|]
    ensures r.success <==> |r.outcomes| > 0 && LoggedIn(r.outcomes[|r.outcomes| - 1])
    ensures forall j :: 0 <= j < |r.outcomes| - 1 ==> !LoggedIn(r.outcomes[j])
    ensures !r.success ==> |r.outcomes| == |outcomes| - k
  {
    var made := AttemptsFrom(LoggedIn, outcomes, k);
    LoginResult(|made| > 0 && LoggedIn(made[|made| - 1]), made)
  }

  /** `automated_login` over the two attempts' inputs. */
  function AutomatedLogin(inputs: seq<AttemptInput>): LoginResult
    requires |inputs| == MaxLoginAttempts
  {
    LoginFrom(Outcomes(inputs), 0)
  }

  /** The login succeeds exactly when some attempt lands exactly on the dashboard URL. */
  lemma LoginSucceedsIff(inputs: seq<AttemptInput>)
    requires |inputs| == MaxLoginAttempts
    ensures AutomatedLogin(inputs).success <==>
      exists i :: 0 <= i < MaxLoginAttempts && LoggedIn(RunAttempt(inputs[i]))
  {
    var outcomes := Outcomes(inputs);
    OutcomesAt(inputs, 0);
    OutcomesAt(inputs, 1);
    SucceedsIffSomeLoggedIn(outcomes);
  }

  /** The loop over recorded outcomes succeeds exactly when one of them is a login. */
  lemma SucceedsIffSomeLoggedIn(outcomes: seq<AttemptOutcome>)
    ensures LoginFrom(outcomes, 0).success <==>
      exists i :: 0 <= i < |outcomes| && LoggedIn(outcomes[i])
  {
    EndsAcceptedIff(LoggedIn, outcomes);
  }

  /** The loop stops at the first login: a failed first attempt is followed by exactly one more. */
  lemma AttemptsMade(inputs: seq<AttemptInput>)
    requires |inputs| == MaxLoginAttempts
    ensures var r := AutomatedLogin(inputs);
      |r.outcomes| == if LoggedIn(RunAttempt(inputs[0])) then 1 else 2
  {
    OutcomesAt(inputs, 0);
  }

  /** Every code typed into the captcha field is the solved captcha itself, 1 to 10 of A-Z and 0-9. */
  lemma TypedIsSolvedCaptcha(input: AttemptInput)
    requires RunAttempt(input).Submitted? || RunAttempt(input).SubmitFailed?
    ensures var typed := RunAttempt(input).typed;
      typed == CaptchaForAttempt(input.image.value) && 1 <= |typed| <= 10 && CaptchaChars(typed)
  {
    var captcha := CaptchaForAttempt(input.image.value);
    CaptchaIsCode(input.image.value);
    TypesCodeExactly(captcha);
  }

  /** Landing on the login page's URL is never a success, whatever the captcha and its answers. */
  lemma LandingOnLoginPageFails(input: AttemptInput)
    requires input.landedUrl == Some(Config.LoginFailureUrl)
    ensures !LoggedIn(RunAttempt(input))
  {
    assert Config.LoginFailureUrl != Config.LoginSuccessUrl by {
      assert |Config.LoginFailureUrl| != |Config.LoginSuccessUrl|;
    }
  }
}
