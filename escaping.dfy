/** `escape` and `unescape` of `utils.py`. The replacement text, the
    setting `DOT_REPLACEMENT`, is a parameter: settings.py does not define
    it. */
module Escaping {
  import opened Strings

  /** `escape(s)`: every '.' becomes `repl`. */
  function Escape(s: string, repl: string): string {
    Replace(s, ".", repl)
  }

  /** `unescape(s)`: every `repl` becomes '.'. */
  function Unescape(s: string, repl: string): string {
    Replace(s, repl, ".")
  }

  /** A replacement without '.' leaves no '.' behind. */
  lemma EscapeRemovesDots(s: string, repl: string)
    requires '.' !in repl
    ensures '.' !in Escape(s, repl)
  {
    ReplaceCharRemoves(s, '.', repl);
  }

  /** A string without '.' is not changed by `escape`. */
  lemma EscapeDotless(s: string, repl: string)
    requires '.' !in s
    ensures Escape(s, repl) == s
  {
    ContainsChar(s, '.');
    ReplaceAbsent(s, ".", repl);
  }

  /** `unescape` undoes `escape` for a one-character replacement that does
      not occur in the string. */
  lemma EscapeRoundTrip(s: string, c: char)
    requires c !in s
    ensures Unescape(Escape(s, [c]), [c]) == s
  {
    ReplaceRoundTrip(s, '.', [c]);
  }

  /** The same for a longer replacement, when no character of the string
      occurs in it. */
  lemma EscapeRoundTripText(s: string, repl: string)
    requires repl != [] && forall i :: 0 <= i < |s| ==> s[i] !in repl
    ensures Unescape(Escape(s, repl), repl) == s
  {
    ReplaceRoundTrip(s, '.', repl);
  }
}
