/**
 * The board analyser panel: which uploaded files it accepts, the filter on the
 * letters field, the checks made before an analysis is requested, and the
 * isLoading / error / result lifecycle of one request. The backend's answer is
 * an `Outcome` passed to `CompleteAnalyze`; reading the file into base64 is
 * not modelled.
 */
module BoardAnalysis {
  import opened Types
  import opened Text

  /** The parts of a browser `File` the panel looks at. */
  datatype ImageFile = ImageFile(mimeType: string, size: nat)

  /** What `handleAnalyze` hands to the backend once its checks pass. */
  datatype AnalyzeRequest = AnalyzeRequest(image: ImageFile, letters: string)

  const AllowedFileTypes: seq<string> := ["image/jpeg", "image/png", "image/gif", "image/webp"]
  const MaxFileSizeMB: nat := 10
  const MaxLettersLength: nat := 15

  const InvalidTypeMessage: string := "Invalid file type. Please upload a PNG, JPG, GIF, or WebP file."
  const TooLargeMessage: string := "File is too large. Please upload an image under 10MB."
  const NoImageMessage: string := "Please upload an image of the board."
  const NoLettersMessage: string := "Please enter your current letters."
  const TooManyLettersMessage: string := "Please enter no more than 15 letters."

  function MaxFileSize(): nat {
    MaxFileSizeMB * 1024 * 1024
  }

  /** The error a picked file is refused with, or None when it is accepted. */
  function FileRejection(f: ImageFile): Option<string> {
    if f.mimeType !in AllowedFileTypes then Some(InvalidTypeMessage)
    else if f.size > MaxFileSize() then Some(TooLargeMessage)
    else None
  }

  /**
   * A file is accepted exactly when it is a JPEG, PNG, GIF or WebP image of at
   * most ten mebibytes; the type is checked first.
   */
  lemma FileAcceptance(f: ImageFile)
    ensures FileRejection(f) == None <==>
      (f.mimeType == "image/jpeg" || f.mimeType == "image/png" ||
       f.mimeType == "image/gif" || f.mimeType == "image/webp") && f.size <= 10485760
    ensures FileRejection(f) == Some(InvalidTypeMessage) <==>
      !(f.mimeType == "image/jpeg" || f.mimeType == "image/png" ||
        f.mimeType == "image/gif" || f.mimeType == "image/webp")
    ensures FileRejection(f) == Some(TooLargeMessage) <==>
      f.mimeType in AllowedFileTypes && f.size > 10485760
  {
    assert MaxFileSize() == 10485760;
    assert InvalidTypeMessage != TooLargeMessage by { assert |InvalidTypeMessage| != |TooLargeMessage|; }
  }

  /** The letters field keeps only the ASCII letters of what was typed, in order. */
  function FilterLetters(s: string): (r: string)
    ensures |r| <= |s|
    ensures forall i | 0 <= i < |r| :: IsAsciiLetter(r[i])
    ensures forall c | IsAsciiLetter(c) :: multiset(r)[c] == multiset(s)[c]
    ensures forall c | !IsAsciiLetter(c) :: multiset(r)[c] == 0
  {
    if s == [] then []
    else
      assert s == [s[0]] + s[1..];
      if IsAsciiLetter(s[0]) then [s[0]] + FilterLetters(s[1..]) else FilterLetters(s[1..])
  }

  predicate LettersOnly(s: string) {
    forall i | 0 <= i < |s| :: IsAsciiLetter(s[i])
  }

  /** Text made of letters alone passes the filter unchanged. */
  lemma {:induction false} FilterKeepsLetters(s: string)
    requires LettersOnly(s)
    ensures FilterLetters(s) == s
  {
    if s != [] {
      assert LettersOnly(s[1..]);
      FilterKeepsLetters(s[1..]);
    }
  }

  /** The filter works character by character: it keeps the order of what it keeps. */
  lemma {:induction false} FilterAppend(a: string, b: string)
    ensures FilterLetters(a + b) == FilterLetters(a) + FilterLetters(b)
  {
    if a == [] {
      assert a + b == b;
    } else {
      assert (a + b)[1..] == a[1..] + b;
      FilterAppend(a[1..], b);
    }
  }

  /** Filtering twice is filtering once. */
  lemma FilterIdempotent(s: string)
    ensures FilterLetters(FilterLetters(s)) == FilterLetters(s)
  {
    FilterKeepsLetters(FilterLetters(s));
  }

  /** Filtered letters hold no white space, so trimming them changes nothing. */
  lemma LettersTrimmed(s: string)
    requires LettersOnly(s)
    ensures Trim(s) == s
  {
    TrimStartFixed(s);
    TrimEndFixed(s);
  }

  /** The first failing check of `handleAnalyze`, or None when a request is made. */
  function AnalyzeRejection(image: Option<ImageFile>, letters: string): Option<string> {
    if image == None then Some(NoImageMessage)
    else if Trim(letters) == [] then Some(NoLettersMessage)
    else if |Trim(letters)| > MaxLettersLength then Some(TooManyLettersMessage)
    else None
  }

  /**
   * An analysis is requested exactly when an image is present and the letters
   * hold between one and fifteen characters once trimmed; otherwise the first
   * failing check, in the order image, blank letters, too many letters, names
   * the error.
   */
  lemma AnalyzeChecks(image: Option<ImageFile>, letters: string)
    ensures AnalyzeRejection(image, letters) == None <==>
      image.Some? && !AllWhitespace(letters) && |Trim(letters)| <= 15
    ensures image == None ==> AnalyzeRejection(image, letters) == Some(NoImageMessage)
    ensures image.Some? && AllWhitespace(letters) ==> AnalyzeRejection(image, letters) == Some(NoLettersMessage)
    ensures image.Some? && |Trim(letters)| > 15 ==> AnalyzeRejection(image, letters) == Some(TooManyLettersMessage)
  {
    TrimSpec(letters);
  }

  /** For a letters field kept by the filter, the letter checks are on its raw length. */
  lemma FilteredLettersChecks(image: ImageFile, letters: string)
    requires LettersOnly(letters)
    ensures AnalyzeRejection(Some(image), letters) == None <==> 1 <= |letters| <= 15
  {
    LettersTrimmed(letters);
  }

  /** What the suggestions area shows for the stored result. */
  datatype ResultView = Hidden | NoSuggestions | Rendered(content: string)

  /**
   * Nothing is shown while the result is absent or empty; a result of white
   * space alone shows the fixed no-suggestions notice; any other result is
   * rendered as markdown, untrimmed.
   */
  function ResultPanel(result: Option<string>): (v: ResultView)
    ensures v == Hidden <==> result == None || result == Some([])
    ensures v == NoSuggestions <==> result.Some? && result.value != [] && AllWhitespace(result.value)
    ensures v.Rendered? ==> result == Some(v.content)
  {
    TrimSpec(if result.Some? then result.value else []);
    if result == None || result.value == [] then Hidden
    else if Trim(result.value) == [] then NoSuggestions
    else Rendered(result.value)
  }

  class BoardAnalyzer {
    var imageFile: Option<ImageFile>
    var userLetters: string
    var result: Option<string>
    var isLoading: bool
    var error: Option<string>

    /** The letters field only ever holds what the filter lets through. */
    predicate Valid()
      reads this
    {
      LettersOnly(userLetters)
    }

    constructor ()
      ensures Valid()
      ensures imageFile == None && userLetters == [] && result == None
      ensures !isLoading && error == None
    {
      imageFile := None;
      userLetters := [];
      result := None;
      isLoading := false;
      error := None;
    }

    /**
     * A file was picked (or the picker was closed, `None`). A refused file sets
     * the error and keeps the previous image; an accepted one clears the error
     * and becomes the image.
     */
    method HandleFileChange(file: Option<ImageFile>)
      requires Valid()
      modifies this`imageFile, this`error
      ensures Valid()
      ensures file == None ==> imageFile == old(imageFile) && error == old(error)
      ensures file.Some? && FileRejection(file.value).Some? ==>
        error == FileRejection(file.value) && imageFile == old(imageFile)
      ensures file.Some? && FileRejection(file.value) == None ==>
        error == None && imageFile == file
    {
      if file.Some? {
        var rejection := FileRejection(file.value);
        if rejection.Some? {
          error := rejection;
          return;
        }
        error := None;
        imageFile := file;
      }
    }

    /** The letters input changed to `typed`; only its letters are kept. */
    method EditLetters(typed: string)
      requires Valid()
      modifies this`userLetters
      ensures Valid()
      ensures userLetters == FilterLetters(typed)
    {
      userLetters := FilterLetters(typed);
    }

    /**
     * The part of `handleAnalyze` before its first await. A failed check only
     * sets the error; otherwise loading starts, error and result are cleared,
     * and the request carries the image and the letters as stored (untrimmed).
     */
    method BeginAnalyze() returns (request: Option<AnalyzeRequest>)
      requires Valid()
      modifies this`isLoading, this`error, this`result
      ensures Valid()
      ensures AnalyzeRejection(imageFile, userLetters).Some? ==>
        request == None && error == AnalyzeRejection(imageFile, userLetters) &&
        isLoading == old(isLoading) && result == old(result)
      ensures AnalyzeRejection(imageFile, userLetters) == None ==>
        imageFile.Some? && request == Some(AnalyzeRequest(imageFile.value, userLetters)) &&
        isLoading && error == None && result == None
    {
      var rejection := AnalyzeRejection(imageFile, userLetters);
      if rejection.Some? {
        error := rejection;
        return None;
      }
      isLoading := true;
      error := None;
      result := None;
      request := Some(AnalyzeRequest(imageFile.value, userLetters));
    }

    /**
     * The rest of `handleAnalyze`: the analysis text becomes the result, or the
     * thrown message becomes the error; loading ends either way.
     */
    method CompleteAnalyze(outcome: Outcome<string>)
      requires Valid()
      modifies this`isLoading, this`error, this`result
      ensures Valid()
      ensures !isLoading
      ensures outcome.Ok? ==> result == Some(outcome.value) && error == old(error)
      ensures outcome.Err? ==> error == Some(outcome.message) && result == old(result)
    {
      match outcome {
        case Ok(analysis) => result := Some(analysis);
        case Err(message) => error := Some(message);
      }
      isLoading := false;
    }

    /**
     * One accepted analysis from click to completion: afterwards loading is
     * over and exactly one of result and error is set.
     */
    method Analyze(outcome: Outcome<string>) returns (request: Option<AnalyzeRequest>)
      requires Valid()
      modifies this`isLoading, this`error, this`result
      ensures Valid()
      ensures request.Some? <==> AnalyzeRejection(imageFile, userLetters) == None
      ensures request.Some? ==> !isLoading
      ensures request.Some? ==>
        if outcome.Ok? then result == Some(outcome.value) && error == None
        else error == Some(outcome.message) && result == None
      ensures request == None ==> isLoading == old(isLoading) && result == old(result)
    {
      request := BeginAnalyze();
      if request.Some? {
        CompleteAnalyze(outcome);
      }
    }
  }
}
