/** How a contributor is printed: one line, whatever the display name contains. */
module ContributorEntry {
  import opened LineText
  import opened Sequences

  datatype Record = Record(login: string, name: string)

  /** html.escape(c, quote=True) */
  function EscapeChar(c: char): string {
    if c == '&' then "&amp;"
    else if c == '<' then "&lt;"
    else if c == '>' then "&gt;"
    else if c == '"' then "&quot;"
    else if c == '\'' then "&#x27;"
    else [c]
  }

  function Escape(s: string): string {
    if s == "" then "" else Escape(s[..|s| - 1]) + EscapeChar(s[|s| - 1])
  }

  /** The name with its spaces collapsed, or the login when nothing is left of it. */
  function Display(r: Record): string {
    var collapsed := Join(Words(r.name), " ");
    if collapsed != "" then collapsed else r.login
  }

  const LINK := "<a href=\""
  const HOST := "https://github.com/"
  const TITLE := "\" title=\""
  const IMAGE := "\"><img src=\""
  const SIZE := ".png?size=64\""
  const BOX := " width=\"64\" height=\"64\""
  const ALT := " alt=\""
  const CLOSE := "\" /></a>"

  function Parts(r: Record): seq<string> {
    var esc := Escape(Display(r));
    [LINK, HOST, r.login, TITLE, esc, IMAGE, HOST, r.login, SIZE, BOX, ALT, esc, CLOSE]
  }

  /** _entry_line. */
  function EntryLine(r: Record): string {
    Join(Parts(r), "")
  }

  /** No character that could end the attribute or open a tag, and no line boundary. */
  ghost predicate Harmless(s: string) {
    OneLine(s) && '"' !in s && '\'' !in s && '<' !in s && '>' !in s
  }

  lemma EscapedCharIsHarmless(c: char)
    requires !IsBreak(c)
    ensures Harmless(EscapeChar(c))
  {
  }

  lemma {:induction false} EscapeIsHarmless(s: string)
    requires OneLine(s)
    ensures Harmless(Escape(s))
  {
    if s == "" {
    } else {
      assert s == s[..|s| - 1] + [s[|s| - 1]];
      EscapeIsHarmless(s[..|s| - 1]);
      assert !IsBreak(s[|s| - 1]);
      EscapedCharIsHarmless(s[|s| - 1]);
    }
  }

  lemma DisplayIsOneLine(r: Record)
    requires OneLine(r.login)
    ensures OneLine(Display(r))
  {
    forall w | w in Words(r.name) ensures OneLine(w) {
      WordsAreWords(r.name, w);
      assert IsWord(w);
    }
    assert OneLine(" ");
    JoinIsOneLine(Words(r.name), " ");
  }

  lemma LinkMarkupIsOneLine()
    ensures OneLine(LINK) && OneLine(HOST) && OneLine(TITLE) && OneLine(IMAGE)
  {
  }

  lemma ImageMarkupIsOneLine()
    ensures OneLine(SIZE) && OneLine(BOX) && OneLine(ALT) && OneLine(CLOSE)
  {
  }

  /** Whatever the name contains, the entry is one line and the text in its attributes can neither close
      them nor open a tag. */
  lemma EntryIsOneSafeLine(r: Record)
    requires OneLine(r.login)
    ensures OneLine(EntryLine(r)) && Harmless(Escape(Display(r)))
  {
    DisplayIsOneLine(r);
    EscapeIsHarmless(Display(r));
    LinkMarkupIsOneLine();
    ImageMarkupIsOneLine();
    JoinIsOneLine(Parts(r), "");
  }

  // ---- The text of an entry ----

  lemma EscapeOneMore(s: string, c: char)
    ensures Escape(s + [c]) == Escape(s) + EscapeChar(c)
  {
    assert (s + [c])[..|s|] == s;
  }

  lemma {:induction false} EscapeJoin(a: string, b: string)
    ensures Escape(a + b) == Escape(a) + Escape(b)
  {
    if b == "" {
      assert a + b == a;
    } else {
      var front, last := b[..|b| - 1], b[|b| - 1];
      assert b == front + [last] && a + b == (a + front) + [last];
      EscapeJoin(a, front);
      EscapeOneMore(front, last);
      EscapeOneMore(a + front, last);
      Regroup(Escape(a), Escape(front), EscapeChar(last));
    }
  }

  lemma EscapeOne(c: char)
    ensures Escape([c]) == EscapeChar(c)
  {
    assert [c][..0] == "";
    assert Escape([c]) == "" + EscapeChar(c);
  }

  /** Text is escaped part by part: the five characters of markup become entities, any other stays. */
  lemma EscapeIs(a: string, c: char, b: string)
    ensures Escape("") == ""
    ensures Escape(a + ([c] + b)) ==
            Escape(a) + ((match c
                          case '&' => "&amp;"
                          case '<' => "&lt;"
                          case '>' => "&gt;"
                          case '"' => "&quot;"
                          case '\'' => "&#x27;"
                          case _ => [c]) + Escape(b))
  {
    EscapeJoin(a, [c] + b);
    EscapeJoin([c], b);
    EscapeOne(c);
  }

  /** What is shown: the words of the name with one space between them, or the login if there are none. A name
      that is already so is shown as it is. */
  lemma DisplayIs(r: Record, words: seq<string>)
    requires forall w | w in words :: IsWord(w)
    requires r.name == Join(words, " ")
    ensures Display(r) == if words == [] then r.login else r.name
    ensures forall name: string | Words(name) == words :: Display(Record(r.login, name)) == Display(r)
  {
    JoinedWords(words);
    if words != [] {
      assert words[0] in words;
    }
  }

  lemma {:induction false} JoinedWords(words: seq<string>)
    requires forall w | w in words :: IsWord(w)
    ensures Words(Join(words, " ")) == words
  {
    if words == [] {
    } else {
      assert words[0] in words;
      if |words| == 1 {
        assert words[0] + "" == words[0];
        FirstWord(words[0], "");
      } else {
        JoinedWords(words[1..]);
        FirstWord(words[0], " " + Join(words[1..], " "));
        SkipSpace(' ', Join(words[1..], " "));
        assert words == [words[0]] + words[1..];
      }
    }
  }

  function Concat(parts: seq<string>): string {
    if parts == [] then "" else parts[0] + Concat(parts[1..])
  }

  lemma {:induction false} JoinIsConcat(parts: seq<string>)
    ensures Join(parts, "") == Concat(parts)
  {
    if |parts| <= 1 {
    } else {
      JoinIsConcat(parts[1..]);
      assert "" + Join(parts[1..], "") == Join(parts[1..], "");
    }
  }

  lemma ConcatStep(part: string, parts: seq<string>)
    ensures Concat([part] + parts) == part + Concat(parts)
  {
    assert ([part] + parts)[1..] == parts;
  }

  lemma ConcatThree(a: string, b: string, c: string, parts: seq<string>)
    ensures Concat([a, b, c] + parts) == a + b + c + Concat(parts)
  {
    ConcatStep(c, parts);
    ConcatStep(b, [c] + parts);
    ConcatStep(a, [b, c] + parts);
    assert [b] + ([c] + parts) == [b, c] + parts;
    assert [a] + ([b, c] + parts) == [a, b, c] + parts;
  }

  /** The entry, character by character. */
  lemma EntryText(r: Record)
    ensures var name := Escape(Display(r));
            EntryLine(r) ==
              (("<a href=\"" + "https://github.com/") + r.login) + ("\" title=\"" + name)
              + (("\"><img src=\"" + "https://github.com/") + r.login)
              + ((".png?size=64\"" + " width=\"64\" height=\"64\"" + " alt=\"") + name) + "\" /></a>"
  {
    PartsJoined(LINK, HOST, r.login, TITLE, Escape(Display(r)), IMAGE, SIZE, BOX, ALT, CLOSE);
    JoinIsConcat(Parts(r));
  }

  lemma PartsJoined(link: string, host: string, login: string, title: string, name: string, image: string, size: string,
                    box: string, alt: string, close: string)
    ensures Concat([link, host, login, title, name, image, host, login, size, box, alt, name, close]) ==
            ((link + host) + login) + (title + name) + ((image + host) + login) + ((size + box + alt) + name) + close
  {
    var last := [close];
    ConcatStep(close, []);
    ConcatStep(name, last);
    ConcatThree(size, box, alt, [name] + last);
    ConcatThree(image, host, login, [size, box, alt] + ([name] + last));
    var tail := [image, host, login] + ([size, box, alt] + ([name] + last));
    ConcatStep(name, tail);
    ConcatStep(title, [name] + tail);
    ConcatThree(link, host, login, [title] + ([name] + tail));
    assert [link, host, login] + ([title] + ([name] + tail)) ==
           [link, host, login, title, name, image, host, login, size, box, alt, name, close];
  }
}
