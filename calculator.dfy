/**
 * The calculator page: a keypad state machine over `display`, `equation`
 * and `hasResult`, and the sanitiser that prepares the expression text
 * before it is evaluated.
 */
module Calculator {
  import opened Options

  const Times: char := '\U{00D7}'
  const Divide: char := '\U{00F7}'

  /** The characters the final pattern of the sanitiser keeps: digits, `+ - * /`, `.`, parentheses and space. */
  predicate IsExpressionChar(c: char)
  {
    ('0' <= c <= '9') || c == '+' || c == '-' || c == '*' || c == '/'
    || c == '.' || c == '(' || c == ')' || c == ' '
  }

  /** One character through the `replace` chain: `×` to `*`, `÷` to `/`, nothing else kept but the expression characters. */
  function SanitizeChar(c: char): seq<char>
  {
    if c == Times then "*"
    else if c == Divide then "/"
    else if IsExpressionChar(c) then [c]
    else []
  }

  /**
   * The sanitiser in `handleEquals`. Each input character contributes at
   * most one output character, so the result is never longer.
   */
  function Sanitize(s: string): (r: string)
    ensures |r| <= |s|
    ensures forall i :: 0 <= i < |r| ==> IsExpressionChar(r[i])
  {
    if s == [] then [] else Sanitize(s[..|s| - 1]) + SanitizeChar(s[|s| - 1])
  }

  /** The sanitiser works character by character. */
  lemma {:induction false} SanitizeAppend(s: string, t: string)
    ensures Sanitize(s + t) == Sanitize(s) + Sanitize(t)
    decreases |t|
  {
    if t == [] {
      assert s + t == s;
    } else {
      var init := t[..|t| - 1];
      assert (s + t)[..|s + t| - 1] == s + init;
      SanitizeAppend(s, init);
    }
  }

  /** An expression made only of expression characters passes through unchanged. */
  lemma {:induction false} SanitizeKeeps(s: string)
    requires forall i :: 0 <= i < |s| ==> IsExpressionChar(s[i])
    ensures Sanitize(s) == s
  {
    if s != [] {
      var init := s[..|s| - 1];
      var c := s[|s| - 1];
      assert s == init + [c];
      assert SanitizeChar(c) == [c];
      SanitizeKeeps(init);
    }
  }

  /** The two operator signs of the keypad become `*` and `/`. */
  lemma SanitizeSigns()
    ensures Sanitize([Times]) == "*" && Sanitize([Divide]) == "/"
  {
    assert [Times][..0] == [];
    assert [Divide][..0] == [];
  }

  /** Sanitising twice is sanitising once. */
  lemma SanitizeIdempotent(s: string)
    ensures Sanitize(Sanitize(s)) == Sanitize(s)
  {
    SanitizeKeeps(Sanitize(s));
  }

  /** Every character the sanitiser would drop really is dropped. */
  lemma {:induction false} SanitizeDrops(s: string)
    requires forall i :: 0 <= i < |s| ==> !IsExpressionChar(s[i]) && s[i] != Times && s[i] != Divide
    ensures Sanitize(s) == []
  {
    if s != [] {
      SanitizeDrops(s[..|s| - 1]);
    }
  }

  /** The number of `.` characters in a display. */
  function Dots(s: string): (n: nat)
    ensures n <= |s|
    ensures n == 0 <==> '.' !in s
  {
    if s == [] then 0 else Dots(s[..|s| - 1]) + (if s[|s| - 1] == '.' then 1 else 0)
  }

  lemma {:induction false} DotsAppend(s: string, c: char)
    ensures Dots(s + [c]) == Dots(s) + (if c == '.' then 1 else 0)
  {
    assert (s + [c])[..|s|] == s;
  }

  lemma {:induction false} DotsOfPrefix(s: string)
    requires |s| > 0
    ensures Dots(s[..|s| - 1]) <= Dots(s)
  {
  }

  class CalculatorPage {
    var display: string
    var equation: string
    var hasResult: bool

    /** The display is never empty. */
    ghost predicate Valid()
      reads this
    {
      display != ""
    }

    constructor ()
      ensures Valid()
      ensures display == "0" && equation == "" && !hasResult
    {
      display := "0";
      equation := "";
      hasResult := false;
    }

    /**
     * `handleNumber` for a digit or `.`: after a result the key starts a new
     * entry; a digit replaces a lone `0`; a second `.` is ignored; anything
     * else is appended.
     */
    method HandleNumber(key: char)
      requires Valid()
      modifies this
      ensures Valid()
      ensures old(hasResult) ==> display == [key] && equation == "" && !hasResult
      ensures !old(hasResult) ==> equation == old(equation) && !hasResult
      ensures !old(hasResult) && old(display) == "0" && key != '.' ==> display == [key]
      ensures !old(hasResult) && key == '.' && '.' in old(display) ==> display == old(display)
      ensures !old(hasResult) && !(old(display) == "0" && key != '.') && !(key == '.' && '.' in old(display))
        ==> display == old(display) + [key]
      ensures Dots(old(display)) <= 1 ==> Dots(display) <= 1
    {
      if hasResult {
        display := [key];
        equation := "";
        hasResult := false;
      } else if display == "0" && key != '.' {
        display := [key];
      } else if key == '.' && '.' in display {
        return;
      } else {
        DotsAppend(display, key);
        display := display + [key];
      }
    }

    /** `handleOperator`: the display and the operator become the pending equation. */
    method HandleOperator(op: string)
      requires Valid()
      modifies this
      ensures Valid()
      ensures equation == old(display) + " " + op + " "
      ensures display == "0" && !hasResult
    {
      equation := display + " " + op + " ";
      display := "0";
      hasResult := false;
    }

    /** `handleClear`: back to the initial state, whatever the state was. */
    method HandleClear()
      modifies this
      ensures Valid()
      ensures display == "0" && equation == "" && !hasResult
    {
      display := "0";
      equation := "";
      hasResult := false;
    }

    /** `handleDelete`: drop the last character, or show `0` when one or none is left. */
    method HandleDelete()
      requires Valid()
      modifies this
      ensures Valid()
      ensures |old(display)| > 1 ==> display == old(display)[..|old(display)| - 1]
      ensures |old(display)| <= 1 ==> display == "0"
      ensures equation == old(equation) && hasResult == old(hasResult)
      ensures Dots(display) <= Dots(old(display)) || display == "0"
    {
      if |display| > 1 {
        DotsOfPrefix(display);
        display := display[..|display| - 1];
      } else {
        display := "0";
      }
    }

    /**
     * `handleEquals`. The sanitised text is what the page evaluates; the
     * evaluation itself is dynamic code execution and is not modelled, so
     * its outcome is an argument: the printed number, or `None` when it
     * throws. Returns the sanitised text.
     */
    method HandleEquals(outcome: Option<string>) returns (sanitized: string)
      requires Valid()
      requires outcome.Some? ==> outcome.value != ""
      modifies this
      ensures Valid()
      ensures sanitized == Sanitize(old(equation) + old(display))
      ensures hasResult
      ensures outcome.Some? ==> display == outcome.value && equation == old(equation) + old(display) + " ="
      ensures outcome.None? ==> display == "Erreur" && equation == old(equation)
    {
      var fullEquation := equation + display;
      sanitized := Sanitize(fullEquation);
      if outcome.Some? {
        display := outcome.value;
        equation := fullEquation + " =";
        hasResult := true;
      } else {
        display := "Erreur";
        hasResult := true;
      }
    }
  }
}
