/**
 * Turning the AI's decoded JSON into practice-test and flashcard-set records
 * (`save_activity_from_json`), and the admission rules for uploaded study
 * material (`decode_uploaded_file`): allowed extensions, the size cap and
 * the truncation of the extracted text.
 *
 * Stored fields keep the JSON value they were given: the ORM would coerce
 * or reject them on save (a `null` title, a non-numeric duration), which is
 * not part of this model, so a successful result means the JSON was read
 * without error rather than that the rows were written.
 */
module ActivityImport {
  import opened Wrappers
  import opened JsonValues
  import Text

  datatype OptionRow = OptionRow(text: Json, isCorrect: Json)

  datatype QuestionRow = QuestionRow(
    text: Json, questionType: Json, subject: Json,
    answer: Json, explanation: Json, options: seq<OptionRow>)

  datatype TestRecord = TestRecord(
    title: Json, description: Json, subject: Json, duration: Json,
    difficulty: Json, isPublic: Json, questions: seq<QuestionRow>)

  datatype CardRow = CardRow(front: Json, back: Json)

  datatype SetRecord = SetRecord(
    title: Json, description: Json, subject: Json, difficulty: Json, cards: seq<CardRow>)

  datatype Saved = SavedTest(test: TestRecord) | SavedSet(cardSet: SetRecord)

  /** A Python exception raised while reading the JSON, or an activity type the function does not know. */
  datatype ImportError = Raised(error: PyError) | UnsupportedActivityType(activityType: string)

  /** `v.get(key, default)`: only a dict has `.get`. */
  function GetFrom(v: Json, key: string, default: Json): (r: Result<Json, PyError>)
    ensures r.Err? <==> !v.JObject?
    ensures r.Err? ==> r.error == AttributeError
    ensures v.JObject? && Lookup(v.fields, key).Some? ==> r == Ok(Lookup(v.fields, key).value)
    ensures v.JObject? && Lookup(v.fields, key).None? ==> r == Ok(default)
  {
    if v.JObject? then Ok(Get(v.fields, key, default)) else Err(AttributeError)
  }

  /** One answer option; anything but an object has no `.get` and raises. */
  function SaveOption(opt: Json): (r: Result<OptionRow, PyError>)
    ensures r.Ok? <==> opt.JObject?
    ensures r.Ok? ==> r.value == OptionRow(Get(opt.fields, "text", JString("")),
                                           Get(opt.fields, "is_correct", JBool(false)))
  {
    if opt.JObject? then
      Ok(OptionRow(Get(opt.fields, "text", JString("")), Get(opt.fields, "is_correct", JBool(false))))
    else Err(AttributeError)
  }

  /** The options in order, stopping at the first one that raises. */
  function SaveOptions(opts: seq<Json>): (r: Result<seq<OptionRow>, PyError>)
    ensures r.Ok? <==> forall i :: 0 <= i < |opts| ==> opts[i].JObject?
    ensures r.Ok? ==> |r.value| == |opts|
                      && forall i :: 0 <= i < |opts| ==> Ok(r.value[i]) == SaveOption(opts[i])
  {
    if |opts| == 0 then Ok([])
    else
      var first := SaveOption(opts[0]);
      if first.Err? then Err(first.error)
      else
        var rest := SaveOptions(opts[1..]);
        if rest.Err? then Err(rest.error)
        else
          assert forall i :: 1 <= i < |opts| ==> opts[i] == opts[1..][i - 1];
          Ok([first.value] + rest.value)
  }

  /** The value of `q.get("question_type")` is the string "mcq". */
  predicate DeclaredMcq(fields: seq<(string, Json)>) {
    Lookup(fields, "question_type") == Some(JString("mcq"))
  }

  /**
   * One question: the text fields with their defaults, the subject inherited
   * from the test, and options only when the type was given as "mcq".
   */
  function SaveQuestion(q: Json, testSubject: Json): (r: Result<QuestionRow, PyError>)
    ensures !q.JObject? ==> r == Err(AttributeError)
    ensures r.Ok? ==> q.JObject?
    ensures r.Ok? && !DeclaredMcq(q.fields) ==> r.value.options == []
    ensures r.Ok? ==> r.value.questionType == Get(q.fields, "question_type", JString("mcq"))
    ensures r.Ok? ==> r.value.subject == Get(q.fields, "subject", testSubject)
  {
    if !q.JObject? then Err(AttributeError)
    else
      var row := QuestionRow(
        Get(q.fields, "text", JString("")),
        Get(q.fields, "question_type", JString("mcq")),
        Get(q.fields, "subject", testSubject),
        Get(q.fields, "answer", JString("")),
        Get(q.fields, "explanation", JString("")),
        []);
      if DeclaredMcq(q.fields) then
        var items := Iterate(Get(q.fields, "options", JArray([])));
        if items.Err? then Err(items.error)
        else
          var opts := SaveOptions(items.value);
          if opts.Err? then Err(opts.error) else Ok(row.(options := opts.value))
      else Ok(row)
  }

  function SaveQuestions(qs: seq<Json>, testSubject: Json): (r: Result<seq<QuestionRow>, PyError>)
    ensures r.Ok? ==> |r.value| == |qs|
                      && forall i :: 0 <= i < |qs| ==> Ok(r.value[i]) == SaveQuestion(qs[i], testSubject)
    ensures r.Err? ==> exists i :: 0 <= i < |qs| && SaveQuestion(qs[i], testSubject).Err?
  {
    if |qs| == 0 then Ok([])
    else
      var first := SaveQuestion(qs[0], testSubject);
      if first.Err? then Err(first.error)
      else
        var rest := SaveQuestions(qs[1..], testSubject);
        assert forall i :: 1 <= i < |qs| ==> qs[i] == qs[1..][i - 1];
        if rest.Err? then Err(rest.error)
        else Ok([first.value] + rest.value)
  }

  function SaveCards(cards: seq<Json>): (r: Result<seq<CardRow>, PyError>)
    ensures r.Ok? <==> forall i :: 0 <= i < |cards| ==> cards[i].JObject?
    ensures r.Ok? ==> |r.value| == |cards|
                      && forall i :: 0 <= i < |cards| ==>
                           r.value[i] == CardRow(Get(cards[i].fields, "front", JString("")),
                                                 Get(cards[i].fields, "back", JString("")))
  {
    if |cards| == 0 then Ok([])
    else if !cards[0].JObject? then Err(AttributeError)
    else
      var rest := SaveCards(cards[1..]);
      assert forall i :: 1 <= i < |cards| ==> cards[i] == cards[1..][i - 1];
      if rest.Err? then Err(rest.error)
      else Ok([CardRow(Get(cards[0].fields, "front", JString("")),
                       Get(cards[0].fields, "back", JString("")))] + rest.value)
  }

  /** The practice-test branch, after unwrapping. */
  function SavePracticeTest(data: Json, duration: int): (r: Result<TestRecord, PyError>)
    ensures !data.JObject? ==> r == Err(AttributeError)
    ensures r.Ok? ==> data.JObject?
    ensures r.Ok? ==> r.value.title == Get(data.fields, "title", JString("Untitled Test"))
                      && r.value.duration == Get(data.fields, "duration", JInt(duration))
                      && r.value.isPublic == Get(data.fields, "is_public", JBool(true))
    ensures r.Ok? ==> r.value.description == Get(data.fields, "description", JString(""))
                      && r.value.subject == Get(data.fields, "subject", JString("General"))
                      && r.value.difficulty == Get(data.fields, "difficulty", JString("Medium"))
    ensures r.Ok? ==> Iterate(Get(data.fields, "questions", JArray([]))).Ok?
                      && |r.value.questions| == |Iterate(Get(data.fields, "questions", JArray([]))).value|
    ensures r.Ok? ==> var items := Iterate(Get(data.fields, "questions", JArray([]))).value;
                      forall i :: 0 <= i < |items| ==> Ok(r.value.questions[i]) == SaveQuestion(items[i], r.value.subject)
    ensures data.JObject? && r.Err? ==>
              var items := Iterate(Get(data.fields, "questions", JArray([])));
              items.Err? || exists i :: 0 <= i < |items.value|
                             && SaveQuestion(items.value[i], Get(data.fields, "subject", JString("General"))).Err?
  {
    if !data.JObject? then Err(AttributeError)
    else
      var subject := Get(data.fields, "subject", JString("General"));
      var items := Iterate(Get(data.fields, "questions", JArray([])));
      if items.Err? then Err(items.error)
      else
        var questions := SaveQuestions(items.value, subject);
        if questions.Err? then Err(questions.error)
        else Ok(TestRecord(
          Get(data.fields, "title", JString("Untitled Test")),
          Get(data.fields, "description", JString("")),
          subject,
          Get(data.fields, "duration", JInt(duration)),
          Get(data.fields, "difficulty", JString("Medium")),
          Get(data.fields, "is_public", JBool(true)),
          questions.value))
  }

  /** The flashcard branch, after unwrapping. */
  function SaveFlashcardSet(data: Json): (r: Result<SetRecord, PyError>)
    ensures !data.JObject? ==> r == Err(AttributeError)
    ensures r.Ok? ==> data.JObject?
    ensures r.Ok? ==> r.value.title == Get(data.fields, "title", JString("Untitled Flashcards"))
                      && r.value.subject == Get(data.fields, "subject", JString("General"))
    ensures r.Ok? ==> r.value.description == Get(data.fields, "description", JString(""))
                      && r.value.difficulty == Get(data.fields, "difficulty", JString("Medium"))
    ensures r.Ok? ==> Iterate(Get(data.fields, "flashcards", JArray([]))).Ok?
                      && |r.value.cards| == |Iterate(Get(data.fields, "flashcards", JArray([]))).value|
    ensures r.Ok? ==> var items := Iterate(Get(data.fields, "flashcards", JArray([]))).value;
                      forall i :: 0 <= i < |items| ==>
                        items[i].JObject?
                        && r.value.cards[i] == CardRow(Get(items[i].fields, "front", JString("")),
                                                       Get(items[i].fields, "back", JString("")))
    ensures data.JObject? && Iterate(Get(data.fields, "flashcards", JArray([]))).Ok? ==>
              (r.Ok? <==> forall i :: 0 <= i < |Iterate(Get(data.fields, "flashcards", JArray([]))).value| ==>
                                     Iterate(Get(data.fields, "flashcards", JArray([]))).value[i].JObject?)
  {
    if !data.JObject? then Err(AttributeError)
    else
      var items := Iterate(Get(data.fields, "flashcards", JArray([])));
      if items.Err? then Err(items.error)
      else
        var cards := SaveCards(items.value);
        if cards.Err? then Err(cards.error)
        else Ok(SetRecord(
          Get(data.fields, "title", JString("Untitled Flashcards")),
          Get(data.fields, "description", JString("")),
          Get(data.fields, "subject", JString("General")),
          Get(data.fields, "difficulty", JString("Medium")),
          cards.value))
  }

  function Lift<T>(r: Result<T, PyError>, wrap: T -> Saved): Result<Saved, ImportError> {
    if r.Ok? then Ok(wrap(r.value)) else Err(Raised(r.error))
  }

  /**
   * `save_activity_from_json(json_data, user, activity_type, duration)`:
   * unwrap the optional "PracticeTest" / "FlashcardSet" member, then build the records.
   */
  function SaveActivityFromJson(jsonData: Json, activityType: string, duration: int): (r: Result<Saved, ImportError>)
    ensures activityType != "practice_test" && activityType != "flashcards"
            ==> r == Err(UnsupportedActivityType(activityType))
    ensures r.Ok? && activityType == "practice_test" ==> r.value.SavedTest?
    ensures r.Ok? && activityType == "flashcards" ==> r.value.SavedSet?
    ensures !jsonData.JObject? && (activityType == "practice_test" || activityType == "flashcards")
            ==> r == Err(Raised(AttributeError))
    ensures jsonData.JObject? && activityType == "practice_test" ==>
              var saved := SavePracticeTest(Get(jsonData.fields, "PracticeTest", jsonData), duration);
              (r.Ok? <==> saved.Ok?)
              && (r.Ok? ==> r.value == SavedTest(saved.value))
              && (r.Err? ==> r.error == Raised(saved.error))
    ensures jsonData.JObject? && activityType == "flashcards" ==>
              var saved := SaveFlashcardSet(Get(jsonData.fields, "FlashcardSet", jsonData));
              (r.Ok? <==> saved.Ok?)
              && (r.Ok? ==> r.value == SavedSet(saved.value))
              && (r.Err? ==> r.error == Raised(saved.error))
  {
    if activityType == "practice_test" then
      var data := GetFrom(jsonData, "PracticeTest", jsonData);
      if data.Err? then Err(Raised(data.error))
      else Lift(SavePracticeTest(data.value, duration), (t: TestRecord) => SavedTest(t))
    else if activityType == "flashcards" then
      var data := GetFrom(jsonData, "FlashcardSet", jsonData);
      if data.Err? then Err(Raised(data.error))
      else Lift(SaveFlashcardSet(data.value), (s: SetRecord) => SavedSet(s))
    else Err(UnsupportedActivityType(activityType))
  }

  /** True when the object has no member called `key`. */
  predicate Lacks(v: Json, key: string) {
    v.JObject? && forall i :: 0 <= i < |v.fields| ==> v.fields[i].0 != key
  }

  /**
   * Wrapping is optional: `{"PracticeTest": d}` is saved exactly as `d` is,
   * when `d` itself has no "PracticeTest" member.
   */
  lemma PracticeTestUnwrapOptional(inner: Json, duration: int)
    requires Lacks(inner, "PracticeTest")
    ensures SaveActivityFromJson(Singleton("PracticeTest", inner), "practice_test", duration)
         == SaveActivityFromJson(inner, "practice_test", duration)
  {
    assert Get(Singleton("PracticeTest", inner).fields, "PracticeTest", JNull) == inner;
  }

  lemma FlashcardSetUnwrapOptional(inner: Json)
    requires Lacks(inner, "FlashcardSet")
    ensures SaveActivityFromJson(Singleton("FlashcardSet", inner), "flashcards", 0)
         == SaveActivityFromJson(inner, "flashcards", 0)
  {
    assert Get(Singleton("FlashcardSet", inner).fields, "FlashcardSet", JNull) == inner;
  }

  /** An empty object yields a test made only of the defaults, with the caller's duration. */
  lemma EmptyPracticeTestDefaults(duration: int)
    ensures SaveActivityFromJson(JObject([]), "practice_test", duration)
         == Ok(SavedTest(TestRecord(JString("Untitled Test"), JString(""), JString("General"),
                                    JInt(duration), JString("Medium"), JBool(true), [])))
  {
  }

  /**
   * A question without a "question_type" member is stored as "mcq", yet gets
   * no options, because the options are only read when the member is present.
   */
  lemma UntypedQuestionHasNoOptions(q: Json, testSubject: Json)
    requires Lacks(q, "question_type")
    ensures SaveQuestion(q, testSubject).Ok?
    ensures SaveQuestion(q, testSubject).value.questionType == JString("mcq")
    ensures SaveQuestion(q, testSubject).value.options == []
  {
  }

  /** A question declared "mcq" keeps one option row per option object, in order. */
  lemma McqQuestionKeepsOptions(q: Json, testSubject: Json, opts: seq<Json>)
    requires q.JObject? && DeclaredMcq(q.fields)
    requires Lookup(q.fields, "options") == Some(JArray(opts))
    requires forall i :: 0 <= i < |opts| ==> opts[i].JObject?
    ensures SaveQuestion(q, testSubject).Ok?
    ensures |SaveQuestion(q, testSubject).value.options| == |opts|
    ensures forall i :: 0 <= i < |opts| ==>
              SaveQuestion(q, testSubject).value.options[i]
              == OptionRow(Get(opts[i].fields, "text", JString("")),
                           Get(opts[i].fields, "is_correct", JBool(false)))
  {
    var r := SaveOptions(opts);
    assert r.Ok?;
    forall i | 0 <= i < |opts|
      ensures r.value[i] == OptionRow(Get(opts[i].fields, "text", JString("")),
                                      Get(opts[i].fields, "is_correct", JBool(false)))
    {
      assert Ok(r.value[i]) == SaveOption(opts[i]);
    }
  }

  // ---------------------------------------------------------------------
  // Uploaded study material

  const AllowedExtensions: set<string> := {"txt", "pdf", "docx", "pptx"}
  const MaxFileSizeBytes: nat := 5 * 1024 * 1024
  const MaxContentLength: nat := 5000
  const TruncationMarker: string := "\n...[truncated]"

  datatype UploadError =
    | UnsupportedFileType(ext: string)
    | FileTooLarge
    | ReadFailed

  /** `name.split('.')[-1].lower()`. */
  function Extension(name: string): (ext: string)
    ensures '.' !in ext
    ensures |ext| <= |name|
  {
    Text.Lower(Text.AfterLast(name, '.'))
  }

  /** The text handed to the AI: at most 5000 characters of it, then the marker. */
  function Truncate(text: string): (r: string)
    ensures |text| <= MaxContentLength ==> r == text
    ensures |text| > MaxContentLength ==> |r| == MaxContentLength + |TruncationMarker|
                                          && r[..MaxContentLength] == text[..MaxContentLength]
                                          && r[MaxContentLength..] == TruncationMarker
  {
    if |text| > MaxContentLength then text[..MaxContentLength] + TruncationMarker else text
  }

  /**
   * `decode_uploaded_file`: the extension check, then the size check (`size`
   * in bytes; the source compares size / 2^20 with 5), then the extracted
   * text, truncated and stripped. `extracted` is what the parser for that
   * extension produced, or None when it raised.
   */
  function DecodeUploadedFile(name: string, size: nat, extracted: Option<string>): (r: Result<string, UploadError>)
    ensures Extension(name) !in AllowedExtensions ==> r == Err(UnsupportedFileType(Extension(name)))
    ensures Extension(name) in AllowedExtensions && size > MaxFileSizeBytes ==> r == Err(FileTooLarge)
    ensures r.Ok? <==> Extension(name) in AllowedExtensions && size <= MaxFileSizeBytes && extracted.Some?
    ensures r.Ok? ==> |r.value| <= MaxContentLength + |TruncationMarker|
    ensures r.Ok? && |extracted.value| <= MaxContentLength ==> r.value == Text.Strip(extracted.value)
    ensures r.Ok? && |extracted.value| > MaxContentLength
            ==> r.value == Text.Strip(extracted.value[..MaxContentLength] + TruncationMarker)
  {
    var ext := Extension(name);
    if ext !in AllowedExtensions then Err(UnsupportedFileType(ext))
    else if size > MaxFileSizeBytes then Err(FileTooLarge)
    else if extracted.None? then Err(ReadFailed)
    else Ok(Text.Strip(Truncate(extracted.value)))
  }

  /** Over-long text always ends with the truncation marker, whatever whitespace it had. */
  lemma TruncatedTextEndsWithMarker(name: string, size: nat, text: string)
    requires Extension(name) in AllowedExtensions && size <= MaxFileSizeBytes
    requires |text| > MaxContentLength
    ensures DecodeUploadedFile(name, size, Some(text)).Ok?
    ensures Text.EndsWith(DecodeUploadedFile(name, size, Some(text)).value, "...[truncated]")
  {
    var word := "...[truncated]";
    MarkerWordSolid(word);
    assert Truncate(text) == (text[..MaxContentLength] + "\n") + word;
    Text.StripKeepsSolidSuffix(text[..MaxContentLength] + "\n", word);
  }

  /** The marker is a newline followed by a word without whitespace. */
  lemma MarkerWordSolid(word: string)
    requires word == "...[truncated]"
    ensures TruncationMarker == "\n" + word
    ensures word != [] && forall i :: 0 <= i < |word| ==> !Text.IsSpace(word[i])
  {
  }

  /** The extension of `stem.ext`, for an `ext` without a dot, is `ext` lower-cased. */
  lemma ExtensionAfterDot(stem: string, ext: string)
    requires '.' !in ext
    ensures Extension(stem + "." + ext) == Text.Lower(ext)
  {
    Text.AfterLastOfJoin(stem, '.', ext);
    assert stem + "." + ext == stem + ['.'] + ext;
  }

  /** A name without a dot is its own extension, lower-cased. */
  lemma ExtensionOfDotless(name: string)
    requires '.' !in name
    ensures Extension(name) == Text.Lower(name)
  {
    Text.AfterLastAbsent(name, '.');
  }

  /** The extension is matched without regard to case: "Notes.TXT" is accepted. */
  lemma UpperCaseExtensionAccepted()
    ensures Extension("Notes.TXT") == "txt"
    ensures DecodeUploadedFile("Notes.TXT", 10, Some("hi")) == Ok("hi")
  {
    NotesExtension();
    ShortTextKept("hi");
  }

  lemma NotesExtension()
    ensures Extension("Notes.TXT") == "txt"
  {
    ExtensionAfterDot("Notes", "TXT");
    assert "Notes" + "." + "TXT" == "Notes.TXT";
    assert Text.Lower("TXT") == "txt";
  }

  /** Short text with no surrounding whitespace reaches the AI as it is. */
  lemma ShortTextKept(text: string)
    requires 0 < |text| <= MaxContentLength && !Text.IsSpace(text[0]) && !Text.IsSpace(text[|text| - 1])
    ensures Text.Strip(Truncate(text)) == text
  {
    Text.StripOfTrimmed(text);
  }

  /** A name without a dot is taken whole as its extension, so "README" is rejected. */
  lemma DotlessNameRejected()
    ensures DecodeUploadedFile("README", 10, Some("x")).Err?
    ensures DecodeUploadedFile("README", 10, Some("x")).error.UnsupportedFileType?
  {
    ReadmeExtension();
    assert "readme" !in AllowedExtensions;
  }

  lemma ReadmeExtension()
    ensures Extension("README") == "readme"
  {
    ExtensionOfDotless("README");
    assert Text.Lower("README") == "readme";
  }
}
