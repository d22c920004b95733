/** The constants of config.py that the decision logic reads. */
module Config {

  /** Overall attendance at or above this percentage is GOOD. */
  const GoodThreshold: int := 75

  /** Overall attendance at or above this percentage (and below GOOD) is WARNING. */
  const WarningThreshold: int := 65

  /** The prompt variants tried in turn by the captcha solver. */
  const CaptchaPrompts: seq<string> := [
    "Extract only the alphanumeric text from this captcha image. Return just the characters with no explanations, no prefixes, no quotes - only the pure text characters.",
    "What text is shown in this captcha image? Reply with only the text characters in.",
    "Read the captcha code from this image. Output only the code.",
    "OCR this captcha image. Return only the alphanumeric characters."
  ]

  /** The number of prompt variants. */
  const PromptCount: nat := 4

  /** The count agrees with the list of variants. */
  lemma PromptCountIsLength()
    ensures |CaptchaPrompts| == PromptCount
  {
  }

  const LoginSuccessUrl: string := "https://student.jgianveshana.com/ui/dashboard/index.aspx"
  const LoginFailureUrl: string := "https://student.jgianveshana.com/"

  const PlusIconSelector: string := "i.bx-plus-circle"
  const PlusIconXPath: string := "//i[contains(@class, 'bx-plus-circle')]"
}
