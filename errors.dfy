/** How `get_info` turns the engine's error text into the message it reports
    (app.py:88-99): three phrases mark a login or bot-check rejection, anything
    else is reported verbatim after "Failed: ". */
module ErrorText {
  import opened Text

  /** The fixed message for a login or bot-check rejection. */
  const WarningSign: string := "⚠️"
  const LoginMessage: string := WarningSign + " الفيديو يحتاج تسجيل دخول أو YouTube قام بحظر الطلب. جرّب فيديو آخر أو فعّل كوكيز المتصفح."

  const FailedPrefix: string := "Failed: "

  const BotPhrase: string := "confirm you're not a bot"
  const SignInPhrase: string := "Sign in to"
  const LoginPhrase: string := "login required"

  /** The condition of app.py:91-93. */
  predicate IsLoginBlock(message: string) {
    Contains(message, BotPhrase) || Contains(message, SignInPhrase) || Contains(message, LoginPhrase)
  }

  /** The `error` field of the 500 response. */
  function Classify(message: string): string {
    if IsLoginBlock(message) then LoginMessage else FailedPrefix + message
  }

  /** The fixed message comes out exactly for a recognised rejection; any other
      message is reported whole after the prefix. */
  lemma ClassifyCases(message: string)
    ensures Classify(message) == LoginMessage <==> IsLoginBlock(message)
    ensures !IsLoginBlock(message) ==>
      FailedPrefix <= Classify(message) && Classify(message)[|FailedPrefix|..] == message
  {
    if !IsLoginBlock(message) {
      assert LoginMessage[0] == '\U{26A0}';
      assert Classify(message)[0] == 'F';
    }
  }

  /** Distinct unrecognised messages stay distinct. */
  lemma ClassifyKeepsUnrecognised(a: string, b: string)
    requires !IsLoginBlock(a) && !IsLoginBlock(b)
    requires Classify(a) == Classify(b)
    ensures a == b
  {
    ClassifyCases(a);
    ClassifyCases(b);
  }

  /** A recognised phrase is recognised whatever surrounds it. */
  lemma LoginBlockInContext(pre: string, message: string, post: string)
    requires IsLoginBlock(message)
    ensures Classify(pre + message + post) == LoginMessage
  {
    if Contains(message, BotPhrase) {
      ContainsInContext(pre, message, post, BotPhrase);
    } else if Contains(message, SignInPhrase) {
      ContainsInContext(pre, message, post, SignInPhrase);
    } else {
      ContainsInContext(pre, message, post, LoginPhrase);
    }
  }

  /** A phrase starting with a non-digit never occurs in a string of digits. */
  lemma NoPhraseInDigits(s: string, phrase: string)
    requires forall k :: 0 <= k < |s| ==> IsDigit(s[k])
    requires |phrase| > 0 && !IsDigit(phrase[0])
    ensures !Contains(s, phrase)
  {
    ContainsIff(s, phrase);
    forall i | 0 <= i <= |s| ensures !(phrase <= s[i..]) {
      if i < |s| {
        assert s[i..][0] == s[i];
      }
    }
  }

  /** A message of digits alone (the text of a `KeyError` on an integer key) is
      never a rejection. */
  lemma DigitsAreUnrecognised(s: string)
    requires forall k :: 0 <= k < |s| ==> IsDigit(s[k])
    ensures Classify(s) == FailedPrefix + s
  {
    NoPhraseInDigits(s, BotPhrase);
    NoPhraseInDigits(s, SignInPhrase);
    NoPhraseInDigits(s, LoginPhrase);
  }
}
