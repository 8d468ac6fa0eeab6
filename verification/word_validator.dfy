/**
 * The word validator panel: the isLoading / error / result lifecycle of one
 * validation, and the verdict and definition it shows.
 */
module Validation {
  import opened Types
  import opened Text

  const NoWordMessage: string := "Please enter a word to validate."

  /** The heading under the input: the raw input in quotes, then the verdict. */
  function VerdictText(word: string, isValid: bool): string {
    "\"" + word + "\" is " + (if isValid then "a valid" else "not a valid") + " Scrabble word."
  }

  /**
   * The heading quotes the input as it stands when shown, untrimmed and in its
   * own case, and says "not a valid" exactly when the result is invalid: two
   * verdicts for the same input always differ.
   */
  lemma VerdictContents(word: string, isValid: bool)
    ensures StartsWith(VerdictText(word, isValid), "\"" + word + "\" is ")
    ensures VerdictText(word, true) != VerdictText(word, false)
    ensures isValid <==> VerdictText(word, isValid)[|word| + 6..|word| + 13] == "a valid"
  {
    var head := "\"" + word + "\" is ";
    assert |head| == |word| + 6;
    var v := VerdictText(word, isValid);
    assert v == head + ((if isValid then "a valid" else "not a valid") + " Scrabble word.");
    assert v[..|head|] == head;
    assert v[|head|..] == (if isValid then "a valid" else "not a valid") + " Scrabble word.";
    assert v[|word| + 6..|word| + 13] == v[|head|..][..7];
    assert "not a valid"[..7] != "a valid" by { assert "not a valid"[0] != "a valid"[0]; }
    if !isValid {
      assert VerdictText(word, true)[|word| + 6..|word| + 13] == "a valid";
    }
  }

  class WordValidator {
    var word: string
    var result: Option<WordValidationResult>
    var isLoading: bool
    var error: Option<string>

    constructor ()
      ensures word == [] && result == None && !isLoading && error == None
    {
      word := [];
      result := None;
      isLoading := false;
      error := None;
    }

    method EditWord(text: string)
      modifies this`word
      ensures word == text
    {
      word := text;
    }

    /**
     * The part of `handleValidateWord` before its await. A blank word only sets
     * the error. Otherwise loading starts, the error and the result are
     * cleared, and the backend receives the trimmed, lower-cased word. Nothing
     * stops a second call while one is loading.
     */
    method BeginValidate() returns (request: Option<string>)
      modifies this`isLoading, this`error, this`result
      ensures Trim(word) == [] ==>
        request == None && error == Some(NoWordMessage) &&
        result == old(result) && isLoading == old(isLoading)
      ensures Trim(word) != [] ==>
        request == Some(ToLower(Trim(word))) && isLoading && error == None && result == None
    {
      if Trim(word) == [] {
        error := Some(NoWordMessage);
        return None;
      }
      isLoading := true;
      error := None;
      result := None;
      request := Some(ToLower(Trim(word)));
    }

    /**
     * The rest of `handleValidateWord`: the returned record becomes the result,
     * or the thrown message becomes the error; loading ends either way.
     */
    method CompleteValidate(outcome: Outcome<WordValidationResult>)
      modifies this`isLoading, this`error, this`result
      ensures !isLoading
      ensures outcome.Ok? ==> result == Some(outcome.value) && error == old(error)
      ensures outcome.Err? ==> error == Some(outcome.message) && result == old(result)
    {
      match outcome {
        case Ok(verdict) => result := Some(verdict);
        case Err(message) => error := Some(message);
      }
      isLoading := false;
    }

    /** One validation from the click to its answer. */
    method ValidateWord(outcome: Outcome<WordValidationResult>) returns (request: Option<string>)
      modifies this`isLoading, this`error, this`result
      ensures request.Some? <==> Trim(word) != []
      ensures request.Some? ==> !isLoading
      ensures request.Some? ==>
        if outcome.Ok? then result == Some(outcome.value) && error == None
        else result == None && error == Some(outcome.message)
    {
      request := BeginValidate();
      if request.Some? {
        CompleteValidate(outcome);
      }
    }

    /**
     * Two validations started before either answers (the Enter key is not
     * disabled while loading), the newer answering first. Each answer sets
     * only its own field: a late failure leaves the other request's record in
     * place, so a verdict and an error can show together.
     */
    method OverlappingValidations(older: Outcome<WordValidationResult>, newer: Outcome<WordValidationResult>)
      returns (first: Option<string>, second: Option<string>)
      requires Trim(word) != []
      modifies this`isLoading, this`error, this`result
      ensures first.Some? && first == second
      ensures result == (if older.Ok? then Some(older.value) else if newer.Ok? then Some(newer.value) else None)
      ensures error == (if older.Err? then Some(older.message) else if newer.Err? then Some(newer.message) else None)
      ensures !isLoading
    {
      first := BeginValidate();
      second := BeginValidate();
      CompleteValidate(newer);
      CompleteValidate(older);
    }

    /** The verdict heading shown now, if a result is present: it quotes the current input. */
    function Verdict(): (v: Option<string>)
      reads this
      ensures v.Some? <==> result.Some?
      ensures v.Some? ==> StartsWith(v.value, "\"" + word + "\" is ")
    {
      if result == None then None
      else
        VerdictContents(word, result.value.isValid);
        Some(VerdictText(word, result.value.isValid))
    }

    /**
     * The definition line shown under the verdict: only for a valid word, and
     * only when its definition is not empty.
     */
    function Definition(): (d: Option<string>)
      reads this
      ensures d.Some? <==> result.Some? && result.value.isValid && result.value.definition != []
      ensures d.Some? ==> d.value == result.value.definition && d.value != []
    {
      if result.Some? && result.value.isValid && result.value.definition != [] then Some(result.value.definition)
      else None
    }
  }
}
