/** The check the add-expense form makes before it calls the store: the
    title must not be blank after `trim()`, and the amount must be above zero. */
module ExpenseForm {

  /** The characters ECMAScript's `String.prototype.trim` strips: WhiteSpace
      (tab, vertical tab, form feed, no-break space, byte order mark and the
      Unicode space separators) and LineTerminator (LF, CR, LS, PS). */
  predicate IsJsWhitespace(c: char)
  {
    || c == '\t' || c == '\n' || c == '\r' || c == ' '
    || c == '\U{000B}' || c == '\U{000C}' || c == '\U{00A0}' || c == '\U{1680}'
    || ('\U{2000}' <= c <= '\U{200A}')
    || c == '\U{2028}' || c == '\U{2029}' || c == '\U{202F}' || c == '\U{205F}'
    || c == '\U{3000}' || c == '\U{FEFF}'
  }

  /** `title.trim()` is the empty string. */
  predicate IsBlank(s: string)
  {
    forall i :: 0 <= i < |s| ==> IsJsWhitespace(s[i])
  }

  /** The form lets the save through: a title with a visible character and an
      amount strictly above zero. */
  predicate Accepted(title: string, amount: real)
  {
    !IsBlank(title) && amount > 0.0
  }
}
