/** The text of a coverage baseline line, and which paths survive being written and read back. */
module BaselineText {
  import opened Wrappers
  import opened LineText

  datatype Entry = Entry(path: string, rate: real)

  datatype ParseError = MalformedLine | MalformedRate | RateOutOfRange

  /** float() of a word: None when it is not a finite number. */
  type NumberReader = string -> Option<real>

  /** raw.split("#", 1)[0] */
  function BeforeHash(s: string): string {
    if s == "" || s[0] == '#' then "" else [s[0]] + BeforeHash(s[1..])
  }

  /** _parse_entry. */
  function ParseEntry(raw: string, number: NumberReader): Result<Option<Entry>, ParseError> {
    var fields := Words(BeforeHash(raw));
    if fields == [] then Ok(None)
    else if |fields| < 2 then Err(MalformedLine)
    else
      match number(fields[1])
      case None => Err(MalformedRate)
      case Some(rate) => if 0.0 <= rate <= 100.0 then Ok(Some(Entry(fields[0], rate))) else Err(RateOutOfRange)
  }

  /** The line seed_baseline writes. */
  function SeedLine(path: string, rate: string, fraction: string): string {
    path + (" " + (rate + ("   # " + fraction)))
  }

  /** A non-empty run without spaces and without a comment mark. */
  ghost predicate Plain(w: string) {
    IsWord(w) && '#' !in w
  }

  lemma {:induction false} HashAfterWord(w: string, rest: string)
    requires '#' !in w
    ensures BeforeHash(w + rest) == w + BeforeHash(rest)
  {
    if w == "" {
      assert w + rest == rest;
    } else {
      assert w[0] in w;
      assert (w + rest)[1..] == w[1..] + rest;
      HashAfterWord(w[1..], rest);
    }
  }

  lemma {:induction false} BeforeHashHasNone(s: string)
    ensures '#' !in BeforeHash(s)
  {
    if s == "" || s[0] == '#' {
    } else {
      BeforeHashHasNone(s[1..]);
    }
  }

  lemma PlainPathReadsBack(path: string, rate: string, value: real, fraction: string, number: NumberReader)
    requires Plain(rate) && number(rate) == Some(value) && 0.0 <= value <= 100.0
    requires Plain(path)
    ensures ParseEntry(SeedLine(path, rate, fraction), number) == Ok(Some(Entry(path, value)))
  {
    var tail := "   # " + fraction;
    HashAfterWord(path, " " + (rate + tail));
    HashAfterWord(" ", rate + tail);
    HashAfterWord(rate, tail);
    HashAfterWord("   ", "# " + fraction);
    assert tail == "   " + ("# " + fraction);
    assert BeforeHash(tail) == "   " + "";
    var cut := path + (" " + (rate + "   "));
    assert BeforeHash(SeedLine(path, rate, fraction)) == cut;
    FirstWord(path, " " + (rate + "   "));
    SkipSpace(' ', rate + "   ");
    FirstWord(rate, "   ");
    SkipSpace(' ', "  ");
    SkipSpace(' ', " ");
    SkipSpace(' ', "");
    assert "   " == [' '] + "  " && "  " == [' '] + " " && " " == [' '] + "";
    assert Words(cut) == [path, rate];
  }

  /** A seeded line is read back as written exactly when the path is non-empty and has neither a space nor
      a hash in it. Any other is read as another entry, as a comment, or as malformed. */
  lemma SeedLineReadsBackExactly(path: string, rate: string, value: real, fraction: string, number: NumberReader)
    requires Plain(rate) && number(rate) == Some(value) && 0.0 <= value <= 100.0
    ensures ParseEntry(SeedLine(path, rate, fraction), number) == Ok(Some(Entry(path, value))) <==> Plain(path)
  {
    if Plain(path) {
      PlainPathReadsBack(path, rate, value, fraction, number);
    } else if ParseEntry(SeedLine(path, rate, fraction), number) == Ok(Some(Entry(path, value))) {
      var cut := BeforeHash(SeedLine(path, rate, fraction));
      BeforeHashHasNone(SeedLine(path, rate, fraction));
      assert Words(cut)[0] in Words(cut);
      WordsAreWords(cut, path);
    }
  }

  /** Whatever a line says, the path read from it is a word without a hash. */
  lemma ParsedPathIsPlain(raw: string, number: NumberReader)
    requires ParseEntry(raw, number).Ok? && ParseEntry(raw, number).value.Some?
    ensures Plain(ParseEntry(raw, number).value.value.path)
  {
    var fields := Words(BeforeHash(raw));
    assert fields[0] in fields;
    WordsAreWords(BeforeHash(raw), fields[0]);
    BeforeHashHasNone(raw);
  }

  lemma PlainIsItself(w: string)
    requires Plain(w)
    ensures BeforeHash(w) == w && Words(w) == [w]
  {
    HashAfterWord(w, "");
    FirstWord(w, "");
    assert w + "" == w && BeforeHash("") == "" && Words("") == [];
  }

  /** How a line reads: a comment or nothing is no entry; a path alone is malformed; a path and a word that is
      no number, or a number outside [0, 100], is refused; any other path and number is that entry. */
  lemma LineReadings(path: string, word: string, comment: string, number: NumberReader)
    requires Plain(path) && Plain(word)
    ensures ParseEntry("", number) == Ok(None) && ParseEntry("#" + comment, number) == Ok(None)
    ensures ParseEntry(path, number) == Err(MalformedLine)
    ensures ParseEntry(path + (" " + word), number) ==
            if number(word) == None then Err(MalformedRate)
            else if number(word).value < 0.0 || number(word).value > 100.0 then Err(RateOutOfRange)
            else Ok(Some(Entry(path, number(word).value)))
  {
    assert BeforeHash("#" + comment) == "" && Words("") == [];
    PlainIsItself(path);
    PlainIsItself(word);
    HashAfterWord(path, " " + word);
    HashAfterWord(" ", word);
    FirstWord(path, " " + word);
    SkipSpace(' ', word);
    assert [' '] + word == " " + word;
  }
}
