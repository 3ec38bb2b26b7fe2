/** `plx.py`: input names with '.' encoded for the platform, whose input
    names cannot hold one. The replacement text, the setting
    `PLX_DOT_REPLACEMENT`, is a parameter: settings.py does not define it. */
module Plx {
  import opened Values
  import opened Strings

  /** `enc_input(name)`: a name holding the replacement fails the
      assertion; otherwise every '.' becomes the replacement. */
  function EncInput(name: string, repl: string): (r: Result<string>)
    ensures r.Err? <==> Contains(name, repl)
    ensures r.Err? ==> r.error == AssertionError
    ensures r.Ok? && '.' !in repl ==> '.' !in r.value
  {
    if Contains(name, repl) then Err(AssertionError)
    else
      assert '.' !in repl ==> '.' !in Replace(name, ".", repl) by {
        if '.' !in repl { ReplaceCharRemoves(name, '.', repl); }
      }
      Ok(Replace(name, ".", repl))
  }

  /** `dec_input(name)`: every replacement becomes '.'. */
  function DecInput(name: string, repl: string): string {
    Replace(name, repl, ".")
  }

  /** An empty replacement occurs in every name, so every name fails. */
  lemma EncEmptyReplacement(name: string)
    ensures EncInput(name, "") == Err(AssertionError)
  {
    assert OccursAt(name, "", 0);
  }

  /** A name without '.' that `enc_input` accepts comes back unchanged. */
  lemma EncDotless(name: string, repl: string)
    requires '.' !in name && !Contains(name, repl)
    ensures EncInput(name, repl) == Ok(name)
  {
    ContainsChar(name, '.');
    ReplaceAbsent(name, ".", repl);
  }

  /** A name without the replacement is not changed by `dec_input`. */
  lemma DecAbsent(name: string, repl: string)
    requires repl != "" && !Contains(name, repl)
    ensures DecInput(name, repl) == name
  {
    ReplaceAbsent(name, repl, ".");
  }

  /** With a one-character replacement, `dec_input` undoes `enc_input` on
      every name `enc_input` accepts. */
  lemma EncDecRoundTrip(name: string, c: char)
    requires EncInput(name, [c]).Ok?
    ensures DecInput(EncInput(name, [c]).value, [c]) == name
  {
    ContainsChar(name, c);
    ReplaceRoundTrip(name, '.', [c]);
  }

  /** With a longer replacement the assertion is not enough: `"_."` holds
      no `"__"`, is accepted, and decodes to `"._"`. */
  lemma EncDecTwoChars()
    ensures EncInput("_.", "__") == Ok("___")
    ensures DecInput("___", "__") == "._"
  {
    assert !Contains("_.", "__") by {
      forall i | 0 <= i <= 0 ensures !OccursAt("_.", "__", i) {
        assert "_."[0..2][1] == '.';
      }
    }
    assert "_."[..1] == "_" && "_."[1..] == ".";
    assert !StartsWith("_.", ".");
    assert StartsWith(".", ".") && "."[1..] == "";
    assert Replace("", ".", "__") == "";
    assert Replace(".", ".", "__") == "__";
    assert Replace("_.", ".", "__") == "___";
    assert Replace("___", "__", ".") == "." + Replace("_", "__", ".");
    assert Replace("_", "__", ".") == "_" + Replace("", "__", ".");
  }
}
