/** The movie-creation form of the web client: the comma-separated cast
    field and the title check made before the form is sent. */
module MovieForm {
  import opened Common
  import opened Seqs
  import opened Strings
  import MovieController

  /** A name the cast field can hold: non-empty, trimmed and free of commas. */
  predicate IsCastName(name: string) {
    name != "" && IsTrimmed(name) && ',' !in name
  }

  /** `actor.trim()` followed by the test `actor !== ''`: a piece gives its
      trimmed text, or nothing when that is empty. */
  function KeptName(piece: string): (r: seq<string>)
    ensures |r| <= 1
    ensures forall i :: 0 <= i < |r| ==> r[i] != "" && IsTrimmed(r[i])
  {
    var name := Trim(piece);
    if name == "" then [] else [name]
  }

  /** `pieces.map(actor => actor.trim()).filter(actor => actor !== '')`:
      the trimmed pieces, in order, without the empty ones. */
  function KeepNames(pieces: seq<string>): (r: seq<string>)
    ensures forall i :: 0 <= i < |r| ==> r[i] != "" && IsTrimmed(r[i])
  {
    FlatMapAll(pieces, KeptName, (n: string) => n != "" && IsTrimmed(n));
    FlatMap(pieces, KeptName)
  }

  lemma {:induction false} KeepNamesAppend(a: seq<string>, b: seq<string>)
    ensures KeepNames(a + b) == KeepNames(a) + KeepNames(b)
  {
    FlatMapAppend(a, b, KeptName);
  }

  /** The cast list `handleCastChange` stores for the field's text: the text
      split at every comma, each piece trimmed, empty pieces dropped. Every
      entry is a cast name. */
  function ParseCast(input: string): (r: seq<string>)
    ensures forall i :: 0 <= i < |r| ==> IsCastName(r[i])
  {
    KeepNamesCommaFree(Split(input, ','));
    KeepNames(Split(input, ','))
  }

  /** Trimming keeps only characters of the piece, so comma-free pieces
      give comma-free names. */
  lemma {:induction false} KeepNamesCommaFree(pieces: seq<string>)
    requires forall i :: 0 <= i < |pieces| ==> ',' !in pieces[i]
    ensures forall i :: 0 <= i < |KeepNames(pieces)| ==> ',' !in KeepNames(pieces)[i]
  {
    forall k, j | 0 <= k < |pieces| && 0 <= j < |KeptName(pieces[k])|
      ensures ',' !in KeptName(pieces[k])[j]
    {
      assert KeptName(pieces[k])[j] == Trim(pieces[k]);
    }
    FlatMapAll(pieces, KeptName, (n: string) => ',' !in n);
  }

  /** Parsing distributes over a comma: the entries before it come first,
      in order, and then those after it. */
  lemma {:induction false} ParseAround(a: string, b: string)
    ensures ParseCast(a + [','] + b) == ParseCast(a) + ParseCast(b)
  {
    SplitAround(a, ',', b);
    KeepNamesAppend(Split(a, ','), Split(b, ','));
  }

  /** Whitespace in front of the text changes nothing, as every piece is
      trimmed. */
  lemma {:induction false} ParseLeadingWhitespace(c: char, s: string)
    requires IsWhitespace(c)
    ensures ParseCast([c] + s) == ParseCast(s)
  {
    var rest := Split(s, ',');
    var t := [c] + s;
    assert t[0] == c && t[1..] == s;
    assert c != ',';
    assert Split(t, ',') == [[c] + rest[0]] + rest[1..];
    assert rest == [rest[0]] + rest[1..];
    KeepNamesCons([c] + rest[0], rest[1..]);
    KeepNamesCons(rest[0], rest[1..]);
    TrimLeadingWhitespace(c, rest[0]);
  }

  /** A single cast name parses to itself. */
  lemma {:induction false} ParseSingle(name: string)
    requires IsCastName(name)
    ensures ParseCast(name) == [name]
  {
    SplitWithoutSeparator(name, ',');
    assert Trim(name) == name;
    KeepNamesCons(name, []);
  }

  lemma {:induction false} KeepNamesCons(x: string, rest: seq<string>)
    ensures KeepNames([x] + rest) == (if Trim(x) == "" then [] else [Trim(x)]) + KeepNames(rest)
  {
    FlatMapCons(x, rest, KeptName);
  }

  /** Text made only of commas and whitespace parses to the empty list. */
  lemma {:induction false} ParseSeparatorsOnly(input: string)
    requires forall i :: 0 <= i < |input| ==> input[i] == ',' || IsWhitespace(input[i])
    ensures ParseCast(input) == []
  {
    if |input| > 0 {
      var rest := input[1..];
      assert input == [input[0]] + rest;
      ParseSeparatorsOnly(rest);
      if input[0] == ',' {
        assert input == [] + [','] + rest;
        ParseAround([], rest);
        assert Split([], ',') == [""];
        assert [""][1..] == [];
      } else {
        ParseLeadingWhitespace(input[0], rest);
      }
    }
  }

  /** The empty field holds the empty cast. */
  lemma {:induction false} ParseEmpty()
    ensures ParseCast("") == []
  {
    assert Split("", ',') == [""];
    KeepNamesCons("", []);
  }

  /** The field shows the cast as `cast.join(', ')`; parsing that text gives
      back the same cast whenever every entry is a cast name. */
  lemma {:induction false} ParseJoinRoundTrip(cast: seq<string>)
    requires forall i :: 0 <= i < |cast| ==> IsCastName(cast[i])
    ensures ParseCast(Join(cast, ", ")) == cast
  {
    if |cast| == 0 {
      ParseEmpty();
    } else if |cast| == 1 {
      ParseSingle(cast[0]);
    } else {
      ParseJoinRoundTrip(cast[1..]);
      ParseJoinStep(cast[0], cast[1..]);
      assert cast == [cast[0]] + cast[1..];
    }
  }

  lemma {:induction false} ParseJoinStep(name: string, rest: seq<string>)
    requires IsCastName(name) && |rest| > 0
    ensures ParseCast(Join([name] + rest, ", ")) == [name] + ParseCast(Join(rest, ", "))
  {
    JoinFirst(name, rest);
    ParseNameThen(name, Join(rest, ", "));
  }

  /** `", "` is a comma followed by a blank. */
  lemma {:induction false} JoinFirst(name: string, rest: seq<string>)
    requires |rest| > 0
    ensures Join([name] + rest, ", ") == name + [','] + ([' '] + Join(rest, ", "))
  {
    var tail := Join(rest, ", ");
    var parts := [name] + rest;
    assert |parts| >= 2 && parts[0] == name && parts[1..] == rest;
    assert Join(parts, ", ") == name + ", " + tail;
    assert ", " == [','] + [' '];
    SeqAssoc(name, [','], [' '], tail);
  }

  lemma {:induction false} SeqAssoc(a: string, b: string, c: string, d: string)
    ensures a + (b + c) + d == a + b + (c + d)
  {
  }

  lemma {:induction false} ParseNameThen(name: string, tail: string)
    requires IsCastName(name)
    ensures ParseCast(name + [','] + ([' '] + tail)) == [name] + ParseCast(tail)
  {
    ParseAround(name, [' '] + tail);
    ParseLeadingWhitespace(' ', tail);
    ParseSingle(name);
  }

  /** Showing a parsed cast and parsing the shown text again changes
      nothing, so typing in the field never loses or alters entries that
      were already accepted. */
  lemma {:induction false} ParseJoinStable(input: string)
    ensures ParseCast(Join(ParseCast(input), ", ")) == ParseCast(input)
  {
    ParseJoinRoundTrip(ParseCast(input));
  }

  // ---------------------------------------------------------------------
  // Form state and submission
  // ---------------------------------------------------------------------

  datatype FormData = FormData(
    title: string,
    genre: seq<string>,
    releaseYear: int,
    director: string,
    cast: seq<string>,
    synopsis: string,
    posterUrl: string)

  /** The form after the cast field's text changes: only the cast is
      replaced, by the parsed list. */
  function HandleCastChange(form: FormData, text: string): (r: FormData)
    ensures r.cast == ParseCast(text)
    ensures r.(cast := form.cast) == form
  {
    form.(cast := ParseCast(text))
  }

  /** The text the controlled cast input shows: `cast.join(', ')`. */
  function ShownText(form: FormData): string {
    Join(form.cast, ", ")
  }

  /** Whitespace at the end of the text changes nothing, as every piece is
      trimmed. */
  lemma {:induction false} ParseTrailingWhitespace(s: string, c: char)
    requires IsWhitespace(c)
    ensures ParseCast(s + [c]) == ParseCast(s)
  {
    var r := Split(s, ',');
    assert c != ',';
    SplitAppendChar(s, ',', c);
    assert r == r[..|r| - 1] + [r[|r| - 1]];
    KeepNamesLastPiece(r[..|r| - 1], r[|r| - 1], c);
  }

  /** Whitespace after the last piece does not change the kept names. */
  lemma {:induction false} KeepNamesLastPiece(init: seq<string>, last: string, c: char)
    requires IsWhitespace(c)
    ensures KeepNames(init + [last + [c]]) == KeepNames(init + [last])
  {
    assert c != ',';
    KeepNamesAppend(init, [last + [c]]);
    KeepNamesAppend(init, [last]);
    KeepNamesSinglePiece(last, c);
  }

  lemma {:induction false} KeepNamesSinglePiece(last: string, c: char)
    requires IsWhitespace(c)
    ensures KeepNames([last + [c]]) == KeepNames([last])
  {
    KeepNamesSingle(last + [c]);
    KeepNamesSingle(last);
    TrimTrailingWhitespace(last, c);
  }

  lemma {:induction false} KeepNamesSingle(piece: string)
    ensures KeepNames([piece]) == KeptName(piece)
  {
    FlatMapCons(piece, [], KeptName);
    assert [piece] + [] == [piece];
  }

  /** Every cast the form can hold consists of cast names: the initial
      empty cast and every parsed one. */
  predicate CastWellFormed(form: FormData) {
    forall i :: 0 <= i < |form.cast| ==> IsCastName(form.cast[i])
  }

  /** Typing a comma or a blank at the end of the cast field is undone at
      once: the text typed is the shown text plus that character, it parses
      back to the same cast, and the field shows the old text again. So a
      second name cannot be started, nor a blank typed after a word, at the
      end of the field. */
  lemma {:induction false} TypedSeparatorVanishes(form: FormData, c: char)
    requires CastWellFormed(form)
    requires c == ',' || IsWhitespace(c)
    ensures HandleCastChange(form, ShownText(form) + [c]) == form
    ensures ShownText(HandleCastChange(form, ShownText(form) + [c])) == ShownText(form)
  {
    var shown := ShownText(form);
    ParseJoinRoundTrip(form.cast);
    ParseSeparatorAtEnd(shown, c);
    assert ParseCast(shown + [c]) == form.cast;
  }

  lemma {:induction false} ParseSeparatorAtEnd(s: string, c: char)
    requires c == ',' || IsWhitespace(c)
    ensures ParseCast(s + [c]) == ParseCast(s)
  {
    if c == ',' {
      ParseCommaAtEnd(s);
    } else {
      ParseTrailingWhitespace(s, c);
    }
  }

  /** A comma at the end of the text only adds an empty piece. */
  lemma {:induction false} ParseCommaAtEnd(s: string)
    ensures ParseCast(s + [',']) == ParseCast(s)
  {
    SplitSeparatorAtEnd(s, ',');
    KeepNamesEmptyLast(Split(s, ','));
  }

  lemma {:induction false} SplitSeparatorAtEnd(s: string, sep: char)
    ensures Split(s + [sep], sep) == Split(s, sep) + [""]
  {
    assert s + [sep] == s + [sep] + [];
    Strings.SplitAround(s, sep, []);
  }

  lemma {:induction false} KeepNamesEmptyLast(pieces: seq<string>)
    ensures KeepNames(pieces + [""]) == KeepNames(pieces)
  {
    KeepNamesEmptyPiece();
    KeepNamesAppend(pieces, [""]);
  }

  lemma {:induction false} KeepNamesEmptyPiece()
    ensures KeepNames([""]) == []
  {
    KeepNamesCons("", []);
    assert Trim("") == "";
  }

  /** With "Tom" in the field, typing a blank and then "H" leaves the cast
      as the single name "TomH". */
  lemma {:induction false} TomThenBlankThenH(form: FormData)
    requires form.cast == ["Tom"]
    ensures ShownText(form) == "Tom"
    ensures ShownText(HandleCastChange(form, "Tom ")) == "Tom"
    ensures HandleCastChange(HandleCastChange(form, "Tom "), "TomH").cast == ["TomH"]
  {
    assert IsCastName("Tom") && IsCastName("TomH");
    assert "Tom " == ShownText(form) + [' '];
    TypedSeparatorVanishes(form, ' ');
    ParseSingle("TomH");
  }

  /** The cast field as it is evidently meant to behave: it keeps the text
      as typed, and the cast list is parsed from that text. */
  datatype CastField = CastField(text: string)

  function FieldCast(field: CastField): (r: seq<string>)
    ensures forall i :: 0 <= i < |r| ==> IsCastName(r[i])
  {
    ParseCast(field.text)
  }

  /** The corrected field after typing `chars` one at a time at its end. */
  function TypeChars(field: CastField, chars: string): CastField
    decreases |chars|
  {
    if |chars| == 0 then field else TypeChars(CastField(field.text + [chars[0]]), chars[1..])
  }

  lemma {:induction false} TypeCharsAppends(field: CastField, chars: string)
    ensures TypeChars(field, chars).text == field.text + chars
    decreases |chars|
  {
    if |chars| > 0 {
      TypeCharsAppends(CastField(field.text + [chars[0]]), chars[1..]);
      assert field.text + [chars[0]] + chars[1..] == field.text + chars;
    }
  }

  /** Typing a list of names separated by ", ", key by key, into the empty
      corrected field shows exactly what was typed and yields those names. */
  lemma {:induction false} TypingNamesGivesNames(names: seq<string>)
    requires forall i :: 0 <= i < |names| ==> IsCastName(names[i])
    ensures TypeChars(CastField(""), Join(names, ", ")).text == Join(names, ", ")
    ensures FieldCast(TypeChars(CastField(""), Join(names, ", "))) == names
  {
    TypeCharsAppends(CastField(""), Join(names, ", "));
    assert "" + Join(names, ", ") == Join(names, ", ");
    ParseJoinRoundTrip(names);
  }

  /** The request body `createMovie(formData)` sends: every field present. */
  function RequestBody(form: FormData): MovieController.MovieInput {
    MovieController.MovieInput(form.title, Some(form.genre), Some(form.releaseYear), Some(form.director),
                               Some(form.cast), Some(form.synopsis), Some(form.posterUrl))
  }

  const TitleRequired := "Title is required"

  datatype Submission = ShowError(message: string) | SendCreateMovie(body: MovieController.MovieInput)

  /** `handleSubmit`: an empty title shows "Title is required" and no request
      is made; any other form is sent as it stands, and the server's own
      title check then lets it through. */
  function HandleSubmit(form: FormData): (r: Submission)
    ensures r.ShowError? <==> form.title == ""
    ensures r.ShowError? ==> r.message == TitleRequired
    ensures r.SendCreateMovie? ==> r.body == RequestBody(form)
    ensures r.SendCreateMovie? ==> !MovieController.TitleMissing(r.body.title)
  {
    if form.title == "" then ShowError(TitleRequired) else SendCreateMovie(RequestBody(form))
  }

  /** The client refuses exactly the forms the server would refuse for a
      missing title, so the server's "Title is required" answer is never
      triggered from this form. */
  lemma {:induction false} ClientTitleCheckMatchesServer(form: FormData)
    ensures HandleSubmit(form).ShowError? <==> MovieController.TitleMissing(RequestBody(form).title)
  {
  }
}
