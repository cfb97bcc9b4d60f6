/**
 * The input checks the application makes before touching the store. The
 * result of Python's `int(...)` is given as an `Option<int>`: `None` when
 * `int` raises `ValueError`.
 */
module Validation {
  import opened Options
  import opened Text

  /** `is_valid_menu_choice`: the choice parsed to an integer in 1..7. */
  function IsValidMenuChoice(parsed: Option<int>): (b: bool)
    ensures b ==> parsed.Some?
    ensures parsed.Some? ==> (b <==> 1 <= parsed.value <= 7)
  {
    match parsed
    case None => false
    case Some(n) => 1 <= n <= 7
  }

  /** `is_valid_task_description`: false exactly for the empty or all-whitespace text. */
  function IsValidTaskDescription(description: string): (b: bool)
    ensures b <==> exists i :: 0 <= i < |description| && !IsSpace(description[i])
  {
    Strip(description) != []
  }

  /**
   * The handlers validate the stripped input and store that same stripped
   * text; stripping does not change the verdict, and what is stored
   * neither starts nor ends with whitespace.
   */
  lemma StrippedDescription(description: string)
    ensures IsValidTaskDescription(Strip(description)) == IsValidTaskDescription(description)
    ensures IsValidTaskDescription(description) ==>
              var d := Strip(description); !IsSpace(d[0]) && !IsSpace(d[|d| - 1])
  {
    StripIdempotent(description);
  }

  /** `a` spells `word` (written in lower case) with any mix of ASCII capitals. */
  predicate SpellsIgnoringCase(a: string, word: string) {
    && |a| == |word|
    && forall i :: 0 <= i < |a| ==>
         a[i] == word[i] || ('a' <= word[i] <= 'z' && a[i] as int == word[i] as int - 32)
  }

  /**
   * The delete confirmation: the reply, stripped and lower-cased, is "y"
   * or "yes"; anything else cancels.
   */
  function IsConfirmation(reply: string): (b: bool)
    ensures b <==> SpellsIgnoringCase(Strip(reply), "y") || SpellsIgnoringCase(Strip(reply), "yes")
  {
    var answer := Lower(Strip(reply));
    answer == "y" || answer == "yes"
  }

  /** The plain answer "y" confirms. */
  lemma ConfirmationAcceptsY()
    ensures IsConfirmation("y")
  {
    assert Strip("y") == "y" by {
      assert LeadingSpace("y") == 0;
    }
    assert Lower("y") == "y";
  }

  /** Case and surrounding blanks do not matter: " YES " confirms. */
  lemma ConfirmationAcceptsPaddedYes()
    ensures IsConfirmation(" YES ")
  {
    var reply := " YES ";
    assert LeadingSpace(reply) == 1 by {
      assert !IsSpace(reply[1]);
      assert LeadingSpace(reply[1..]) == 0;
    }
    assert TrailingSpace(reply) == 1 by {
      assert !IsSpace(reply[3]);
      assert TrailingSpace(reply[..4]) == 0;
    }
    assert reply[1..4] == "YES";
    assert Lower("YES") == "yes";
  }

  /** Replies that cancel: empty, "n", and a near miss of "yes". */
  lemma ConfirmationRejects()
    ensures !IsConfirmation("") && !IsConfirmation("n") && !IsConfirmation("yess")
  {
    assert Strip("") == "";
    assert Strip("n") == "n" by {
      assert LeadingSpace("n") == 0;
    }
    assert Lower("n") == "n";
    assert |Strip("yess")| == 4 by {
      assert LeadingSpace("yess") == 0;
      assert TrailingSpace("yess") == 0;
    }
  }
}
