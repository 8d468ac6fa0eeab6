/**
 * The word finder panel: the letters and word-length fields, the
 * isLoading / error / results lifecycle of a search, and what the results area
 * shows. The length field goes through JavaScript's `parseInt(text, 10)`
 * followed by `|| 1`, modelled here on integers.
 */
module WordSearch {
  import opened Types
  import opened Text

  const NoLettersMessage: string := "Please enter some letters."
  const InitialLength: int := 7

  /** What `handleFindWords` hands to the backend. */
  datatype FindRequest = FindRequest(letters: string, length: int)

  // ---------------------------------------------------------------------------
  // parseInt(text, 10)

  predicate IsDigit(c: char) {
    '0' <= c <= '9'
  }

  function DigitValue(c: char): nat
    requires IsDigit(c)
  {
    c as int - '0' as int
  }

  function DigitChar(d: nat): char
    requires d < 10
  {
    (d + '0' as int) as char
  }

  predicate AllDigits(s: string) {
    forall i | 0 <= i < |s| :: IsDigit(s[i])
  }

  /** The longest prefix of decimal digits. */
  function DigitPrefix(s: string): (r: string)
    ensures AllDigits(r) && r <= s
    ensures |r| < |s| ==> !IsDigit(s[|r|])
  {
    if s != [] && IsDigit(s[0]) then [s[0]] + DigitPrefix(s[1..]) else []
  }

  /** The value of a string of decimal digits, most significant first. */
  function DigitsValue(ds: string): nat
    requires AllDigits(ds)
  {
    if ds == [] then 0 else DigitsValue(ds[..|ds| - 1]) * 10 + DigitValue(ds[|ds| - 1])
  }

  /**
   * `parseInt(s, 10)`: leading white space is skipped, one optional sign is
   * read, then the longest run of decimal digits; with no digit the result is
   * NaN, here `None`.
   */
  function ParseInt(s: string): Option<int> {
    var t := TrimStart(s);
    var negative := t != [] && t[0] == '-';
    var body := if t != [] && (t[0] == '-' || t[0] == '+') then t[1..] else t;
    var digits := DigitPrefix(body);
    if digits == [] then None
    else if negative then Some(-(DigitsValue(digits) as int))
    else Some(DigitsValue(digits))
  }

  /** The length field's handler: `parseInt(text, 10) || 1`, so NaN and zero become one. */
  function ParseLength(text: string): (r: int)
    ensures r != 0
    ensures ParseInt(text) == None || ParseInt(text) == Some(0) ==> r == 1
    ensures ParseInt(text).Some? && ParseInt(text).value != 0 ==> r == ParseInt(text).value
  {
    match ParseInt(text)
    case None => 1
    case Some(n) => if n == 0 then 1 else n
  }

  /** The decimal spelling of a natural number, without leading zeros. */
  function DecimalString(n: nat): (r: string)
    ensures AllDigits(r) && r != []
  {
    if n < 10 then [DigitChar(n)] else DecimalString(n / 10) + [DigitChar(n % 10)]
  }

  lemma {:induction false} DecimalValue(n: nat)
    ensures DigitsValue(DecimalString(n)) == n
  {
    var d := DecimalString(n);
    if n >= 10 {
      assert d[..|d| - 1] == DecimalString(n / 10);
      DecimalValue(n / 10);
    }
  }

  /** A run of digits followed by anything that is not a digit reads as that run. */
  lemma {:induction false} DigitPrefixStops(ds: string, rest: string)
    requires AllDigits(ds)
    requires rest == [] || !IsDigit(rest[0])
    ensures DigitPrefix(ds + rest) == ds
  {
    if ds == [] {
      assert ds + rest == rest;
    } else {
      assert (ds + rest)[1..] == ds[1..] + rest;
      DigitPrefixStops(ds[1..], rest);
    }
  }

  /** Digits not preceded by white space or a sign, and followed by a non-digit, read as their value. */
  lemma ParseDigits(ds: string, rest: string, n: nat)
    requires AllDigits(ds) && ds != [] && DigitsValue(ds) == n
    requires rest == [] || !IsDigit(rest[0])
    ensures ParseInt(ds + rest) == Some(n)
  {
    var t := ds + rest;
    assert t[0] == ds[0];
    TrimStartFixed(t);
    DigitPrefixStops(ds, rest);
  }

  /** The same digits after a minus sign read as the negated value. */
  lemma ParseNegatedDigits(ds: string, rest: string, n: nat)
    requires AllDigits(ds) && ds != [] && DigitsValue(ds) == n
    requires rest == [] || !IsDigit(rest[0])
    ensures ParseInt("-" + ds + rest) == Some(-(n as int))
  {
    var m := "-" + ds + rest;
    assert m[0] == '-';
    TrimStartFixed(m);
    assert m[1..] == ds + rest;
    DigitPrefixStops(ds, rest);
  }

  /**
   * `parseInt` reads back what `String(n)` wrote, for either sign, and ignores
   * whatever follows the digits.
   */
  lemma ParseIntDecimal(n: nat, rest: string)
    requires rest == [] || !IsDigit(rest[0])
    ensures ParseInt(DecimalString(n) + rest) == Some(n)
    ensures ParseInt("-" + DecimalString(n) + rest) == Some(-(n as int))
  {
    DecimalValue(n);
    ParseDigits(DecimalString(n), rest, n);
    ParseNegatedDigits(DecimalString(n), rest, n);
  }

  /**
   * A positive length typed as digits is stored as is: the handler enforces
   * neither the lower nor the upper bound of the field.
   */
  lemma LengthUnbounded(n: nat)
    requires n > 0
    ensures ParseLength(DecimalString(n)) == n
    ensures ParseLength("-" + DecimalString(n)) == -(n as int)
    ensures ParseLength(DecimalString(0)) == 1
  {
    ParseDecimalAlone(n);
    ParseDecimalAlone(0);
  }

  /** The digits of `n`, alone in the field, with or without a minus sign. */
  lemma ParseDecimalAlone(n: nat)
    ensures ParseInt(DecimalString(n)) == Some(n)
    ensures ParseInt("-" + DecimalString(n)) == Some(-(n as int))
  {
    var s := DecimalString(n);
    ParseIntDecimal(n, []);
    assert s + [] == s;
    assert "-" + s + [] == "-" + s;
  }

  /**
   * A blank field, or one whose first character after white space is neither
   * a digit nor a sign (`abc`, `.5`), reads as NaN and stores one.
   */
  lemma LengthFallback(text: string)
    requires AllWhitespace(text) ||
      (TrimStart(text) != [] && !IsDigit(TrimStart(text)[0]) &&
       TrimStart(text)[0] != '-' && TrimStart(text)[0] != '+')
    ensures ParseInt(text) == None
    ensures ParseLength(text) == 1
  {
    TrimStartSpec(text);
  }

  // ---------------------------------------------------------------------------
  // the results area

  /** The heading `Found N words:` and the word grid. */
  predicate ShowsCount(results: seq<string>) {
    |results| > 0
  }

  /** The `No words found` notice: tested on the raw letters, not on their trimmed form. */
  predicate ShowsNoWordsNotice(isLoading: bool, results: seq<string>, letters: string) {
    !isLoading && results == [] && letters != []
  }

  /**
   * The two never show together. Before any search, the notice already shows
   * for white space alone, although such letters trim to nothing and would
   * never be searched.
   */
  lemma ResultsAreaConditions(isLoading: bool, results: seq<string>, letters: string)
    ensures !(ShowsCount(results) && ShowsNoWordsNotice(isLoading, results, letters))
    ensures letters != [] && AllWhitespace(letters) ==>
      ShowsNoWordsNotice(false, [], letters) && Trim(letters) == []
  {
    TrimSpec(letters);
  }

  class WordFinder {
    var letters: string
    var length: int
    var results: seq<string>
    var isLoading: bool
    var error: Option<string>

    /** The stored length is never zero. */
    predicate Valid()
      reads this
    {
      length != 0
    }

    constructor ()
      ensures Valid()
      ensures letters == [] && length == 7 && results == [] && !isLoading && error == None
    {
      letters := [];
      length := InitialLength;
      results := [];
      isLoading := false;
      error := None;
    }

    method EditLetters(text: string)
      requires Valid()
      modifies this`letters
      ensures Valid()
      ensures letters == text
    {
      letters := text;
    }

    /** The length field changed to `text`. */
    method EditLength(text: string)
      requires Valid()
      modifies this`length
      ensures Valid()
      ensures length == ParseLength(text)
    {
      length := ParseLength(text);
    }

    /**
     * The part of `handleFindWords` before its await. Blank letters only set
     * the error. Otherwise loading starts, the error and the results are
     * cleared, and the request carries the trimmed, lower-cased letters and the
     * current length. Nothing stops a second call while one is loading.
     */
    method BeginFind() returns (request: Option<FindRequest>)
      requires Valid()
      modifies this`isLoading, this`error, this`results
      ensures Valid()
      ensures Trim(letters) == [] ==>
        request == None && error == Some(NoLettersMessage) &&
        results == old(results) && isLoading == old(isLoading)
      ensures Trim(letters) != [] ==>
        request == Some(FindRequest(ToLower(Trim(letters)), length)) &&
        isLoading && error == None && results == []
    {
      if Trim(letters) == [] {
        error := Some(NoLettersMessage);
        return None;
      }
      isLoading := true;
      error := None;
      results := [];
      request := Some(FindRequest(ToLower(Trim(letters)), length));
    }

    /**
     * The rest of `handleFindWords`: the returned words become the results, or
     * the thrown message becomes the error; loading ends either way.
     */
    method CompleteFind(outcome: Outcome<seq<string>>)
      requires Valid()
      modifies this`isLoading, this`error, this`results
      ensures Valid()
      ensures !isLoading
      ensures outcome.Ok? ==> results == outcome.value && error == old(error)
      ensures outcome.Err? ==> error == Some(outcome.message) && results == old(results)
    {
      match outcome {
        case Ok(words) => results := words;
        case Err(message) => error := Some(message);
      }
      isLoading := false;
    }

    /** One search from the click to its answer. */
    method FindWords(outcome: Outcome<seq<string>>) returns (request: Option<FindRequest>)
      requires Valid()
      modifies this`isLoading, this`error, this`results
      ensures Valid()
      ensures request.Some? <==> Trim(letters) != []
      ensures request.Some? ==> !isLoading
      ensures request.Some? ==>
        if outcome.Ok? then results == outcome.value && error == None
        else results == [] && error == Some(outcome.message)
    {
      request := BeginFind();
      if request.Some? {
        CompleteFind(outcome);
      }
    }

    /**
     * Two searches started before either answers (the Enter key is not
     * disabled while loading), the newer answering first. Each answer sets
     * only its own field: a late failure leaves the other request's words in
     * place, so words and an error can show together.
     */
    method OverlappingSearches(older: Outcome<seq<string>>, newer: Outcome<seq<string>>)
      returns (first: Option<FindRequest>, second: Option<FindRequest>)
      requires Valid() && Trim(letters) != []
      modifies this`isLoading, this`error, this`results
      ensures Valid()
      ensures first.Some? && first == second
      ensures results == (if older.Ok? then older.value else if newer.Ok? then newer.value else [])
      ensures error == (if older.Err? then Some(older.message) else if newer.Err? then Some(newer.message) else None)
      ensures !isLoading
    {
      first := BeginFind();
      second := BeginFind();
      CompleteFind(newer);
      CompleteFind(older);
    }
  }
}
