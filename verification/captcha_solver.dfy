/**
 * The captcha solver: the retry loop of `solve_captcha_with_gemini`, which
 * cycles through the prompt variants and keeps the first reply that passes a
 * stricter gate, and the single-shot `solve_captcha_with_screenshot`.
 * The AI model is abstracted as the sequence of its replies, one per attempt
 * (None stands for an exception or an empty reply); the image download is
 * abstracted as its HTTP status code.
 */
module CaptchaSolver {
  import opened Wrappers
  import opened Chars
  import opened CaptchaText
  import Config

  /** The default number of attempts of the solve loop (`max_retries`). */
  const DefaultMaxRetries: nat := 3

  /** One attempt of the solve loop. */
  datatype CaptchaAttempt = CaptchaAttempt(
    prompt: nat,              // index into Config.CaptchaPrompts
    reply: Option<string>,    // what the model answered, None on error or empty reply
    cleaned: Option<string>,  // the reply after `clean_captcha_response`
    accepted: bool)

  /** The prompt variant used by attempt `k` (0-based): the variants are reused cyclically. */
  function PromptIndex(k: nat): (i: nat)
    ensures i < Config.PromptCount
    ensures k < Config.PromptCount ==> i == k
  {
    k % Config.PromptCount
  }

  /** Looking up attempt `k`'s prompt in the list of variants never fails. */
  lemma PromptInRange(k: nat)
    ensures PromptIndex(k) < |Config.CaptchaPrompts|
  {
    Config.PromptCountIsLength();
  }

  /** Attempt `k` and attempt `k + 4` ask with the same prompt. */
  lemma PromptsCycle(k: nat)
    ensures PromptIndex(k + Config.PromptCount) == PromptIndex(k)
  {
  }

  /** What the solve loop makes of one reply: the reply is stripped and then cleaned. */
  function CleanedReply(reply: Option<string>): Option<string> {
    match reply
    case None => None
    case Some(text) => if text == [] then None else CleanResponse(Trim(text))
  }

  /** `f` applied to every element of `xs`, in order (see `MapAt`). */
  function Map<A, B>(f: A -> B, xs: seq<A>): (ys: seq<B>)
    ensures |ys| == |xs|
  {
    if xs == [] then [] else [f(xs[0])] + Map(f, xs[1..])
  }

  /** Entry `k` of the map is `f` of entry `k`. */
  lemma {:induction false} MapAt<A, B>(f: A -> B, xs: seq<A>, k: nat)
    requires k < |xs|
    ensures Map(f, xs)[k] == f(xs[k])
  {
    if k > 0 {
      MapAt(f, xs[1..], k - 1);
    }
  }

  /** The cleaned replies of all attempts, one per reply. */
  function CleanedReplies(replies: seq<Option<string>>): seq<Option<string>> {
    Map(CleanedReply, replies)
  }

  /** Entry `k` of the cleaned replies is reply `k` cleaned. */
  lemma CleanedRepliesAt(replies: seq<Option<string>>, k: nat)
    requires k < |replies|
    ensures CleanedReplies(replies)[k] == CleanedReply(replies[k])
  {
    MapAt(CleanedReply, replies, k);
  }

  /** The stricter gate of the solve loop: at least 4 characters, all alphanumeric. */
  predicate Accepted(cleaned: Option<string>) {
    cleaned.Some? && |cleaned.value| >= 4 && IsAlnumString(cleaned.value)
  }

  /** From attempt `k` on, the first cleaned reply that passes the gate, or "". */
  function FirstAcceptedFrom(cleaned: seq<Option<string>>, k: nat): (answer: string)
    requires k <= |cleaned|
    ensures answer == [] <==> forall j :: k <= j < |cleaned| ==> !Accepted(cleaned[j])
    ensures answer != [] ==>
      exists i :: k <= i < |cleaned| && cleaned[i] == Some(answer) && Accepted(cleaned[i])
               && forall j :: k <= j < i ==> !Accepted(cleaned[j])
    decreases |cleaned| - k
  {
    if k == |cleaned| then []
    else if Accepted(cleaned[k]) then cleaned[k].value
    else FirstAcceptedFrom(cleaned, k + 1)
  }

  /** The answer of the URL method: "" on a failed download, else the first accepted reply. */
  function SolveByUrl(status: int, replies: seq<Option<string>>): string {
    if status != 200 then [] else FirstAcceptedFrom(CleanedReplies(replies), 0)
  }

  /**
   * `solve_captcha_with_gemini` after the download: attempt `k` asks with prompt
   * `k mod 4`, cleans the reply and returns it if it passes the gate; errors and
   * rejected replies move on. The number of attempts is `|replies|`.
   */
  method SolveWithGemini(status: int, replies: seq<Option<string>>)
    returns (answer: string, attempts: seq<CaptchaAttempt>)
    ensures answer == SolveByUrl(status, replies)
    ensures status != 200 ==> answer == [] && attempts == []
    ensures |attempts| <= |replies|
    ensures status == 200 && answer == [] ==> |attempts| == |replies|
    ensures forall k :: 0 <= k < |attempts| ==> attempts[k].prompt == PromptIndex(k)
    ensures forall k :: 0 <= k < |attempts| ==> attempts[k].reply == replies[k]
    ensures forall k :: 0 <= k < |attempts| ==> attempts[k].cleaned == CleanedReplies(replies)[k]
    ensures forall k :: 0 <= k < |attempts| ==> (attempts[k].accepted <==> Accepted(attempts[k].cleaned))
    ensures answer != [] ==>
      |attempts| > 0 && attempts[|attempts| - 1].cleaned == Some(answer)
    ensures forall k :: 0 <= k < |attempts| - 1 ==> !attempts[k].accepted
  {
    if status != 200 {
      return [], [];
    }
    answer, attempts := RunAttempts(replies, CleanedReplies(replies));
  }

  /** The retry loop proper, over the replies and what cleaning made of them. */
  method RunAttempts(replies: seq<Option<string>>, cleaned: seq<Option<string>>)
    returns (answer: string, attempts: seq<CaptchaAttempt>)
    requires |cleaned| == |replies|
    ensures answer == FirstAcceptedFrom(cleaned, 0)
    ensures |attempts| <= |replies|
    ensures answer == [] ==> |attempts| == |replies|
    ensures forall k :: 0 <= k < |attempts| ==> attempts[k].prompt == PromptIndex(k)
    ensures forall k :: 0 <= k < |attempts| ==> attempts[k].reply == replies[k]
    ensures forall k :: 0 <= k < |attempts| ==> attempts[k].cleaned == cleaned[k]
    ensures forall k :: 0 <= k < |attempts| ==> (attempts[k].accepted <==> Accepted(attempts[k].cleaned))
    ensures answer != [] ==>
      |attempts| > 0 && attempts[|attempts| - 1].cleaned == Some(answer)
    ensures forall k :: 0 <= k < |attempts| - 1 ==> !attempts[k].accepted
  {
    attempts := [];
    var k := 0;
    while k < |replies|
      invariant 0 <= k <= |replies|
      invariant |attempts| == k
      invariant forall j :: 0 <= j < k ==> attempts[j].prompt == PromptIndex(j)
      invariant forall j :: 0 <= j < k ==> attempts[j].reply == replies[j]
      invariant forall j :: 0 <= j < k ==> attempts[j].cleaned == cleaned[j]
      invariant forall j :: 0 <= j < k ==> !attempts[j].accepted
      invariant forall j :: 0 <= j < k ==> !Accepted(cleaned[j])
    {
      if Accepted(cleaned[k]) {
        attempts := attempts + [CaptchaAttempt(PromptIndex(k), replies[k], cleaned[k], true)];
        FirstAcceptedAt(cleaned, k);
        return cleaned[k].value, attempts;
      }
      attempts := attempts + [CaptchaAttempt(PromptIndex(k), replies[k], cleaned[k], false)];
      k := k + 1;
    }
    answer := [];
  }

  /** The loop's answer is the reply of the first attempt that passes the gate. */
  lemma FirstAcceptedAt(cleaned: seq<Option<string>>, k: nat)
    requires k < |cleaned| && Accepted(cleaned[k])
    requires forall j :: 0 <= j < k ==> !Accepted(cleaned[j])
    ensures FirstAcceptedFrom(cleaned, 0) == cleaned[k].value
  {
    FirstAcceptedFromAt(cleaned, 0, k);
  }

  lemma {:induction false} FirstAcceptedFromAt(cleaned: seq<Option<string>>, start: nat, k: nat)
    requires start <= k < |cleaned| && Accepted(cleaned[k])
    requires forall j :: start <= j < k ==> !Accepted(cleaned[j])
    ensures FirstAcceptedFrom(cleaned, start) == cleaned[k].value
    decreases k - start
  {
    if start < k {
      FirstAcceptedFromAt(cleaned, start + 1, k);
    }
  }

  /** For a cleaned answer the alphanumeric check is redundant: the gate is just length >= 4. */
  lemma GateIsLength(text: string)
    requires CleanResponse(text).Some?
    ensures Accepted(CleanResponse(text)) <==> |CleanResponse(text).value| >= 4
  {
    CleanShape(text);
  }

  /** Stripping a reply before cleaning it changes nothing. */
  lemma StripBeforeCleaning(text: string)
    requires text != []
    ensures CleanResponse(Trim(text)) == CleanResponse(text)
  {
    TrimIdempotent(text);
    if Trim(text) == [] {
      BodyOfEmpty();
      assert Body(text) == Body([]);
      CleanNoneIff(text);
    } else {
      assert Body(Trim(text)) == Body(text);
    }
  }

  /**
   * `solve_captcha_with_screenshot`: one reply to the first prompt, cleaned; any
   * non-empty cleaned text is returned, without the length gate of the URL method.
   */
  function SolveWithScreenshot(reply: Option<string>): Option<string> {
    match reply
    case None => None
    case Some(text) =>
      if text == [] then None
      else
        var cleaned := CleanResponse(text);
        if cleaned.Some? && cleaned.value != [] then cleaned else None
  }

  /** The screenshot method returns exactly what the cleaner returns. */
  lemma ScreenshotIsCleaner(text: string)
    requires text != []
    ensures SolveWithScreenshot(Some(text)) == CleanResponse(text)
  {
    CleanShape(text);
  }

  /** The screenshot method accepts answers the URL method rejects, e.g. a single character. */
  lemma ScreenshotHasNoGate(c: char)
    requires IsCaptchaChar(c)
    ensures SolveWithScreenshot(Some([c])) == Some([c])
    ensures !Accepted(CleanedReply(Some([c])))
  {
    ShortCodeUngated([c]);
  }

  /** A code of 1 to 3 captcha characters passes only the screenshot method. */
  lemma ShortCodeUngated(a: string)
    requires 1 <= |a| < 4 && CaptchaChars(a)
    ensures SolveWithScreenshot(Some(a)) == Some(a)
    ensures !Accepted(CleanedReply(Some(a)))
  {
    CodeIsStripped(a);
    CleanFixesShortCode(a);
    ShortAnswerUngated(a);
  }

  /** An answer the cleaner keeps as it is, but shorter than 4, passes only the screenshot method. */
  lemma ShortAnswerUngated(a: string)
    requires 1 <= |a| < 4 && Trim(a) == a && CleanResponse(a) == Some(a)
    ensures SolveWithScreenshot(Some(a)) == Some(a)
    ensures !Accepted(CleanedReply(Some(a)))
  {
    assert CleanedReply(Some(a)) == Some(a);
  }

  /** A code of captcha characters has no whitespace to strip. */
  lemma CodeIsStripped(a: string)
    requires CaptchaChars(a)
    ensures Trim(a) == a
  {
    TrimFixed(a);
  }
}
