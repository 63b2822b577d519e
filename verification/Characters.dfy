/** Digits and text, for the tokenizer of cpp/util.cpp and the patterns of cpp/query.cpp. */
module Characters {

  predicate IsDigit(c: char) {
    '0' <= c <= '9'
  }

  /** Every character is text (textMode) or every character is a digit. */
  predicate Pure(s: string, textMode: bool) {
    forall i :: 0 <= i < |s| ==> IsDigit(s[i]) != textMode
  }

  predicate AllDigits(s: string) {
    Pure(s, false)
  }
}
