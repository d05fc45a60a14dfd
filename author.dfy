/**
 * The `parse_author` template filter: turns a free-form site author such as
 * `Jane Doe <jane@example.com>` into a `mailto:` anchor, or into a plain
 * `<span>` when no e-mail address can be found.
 */
module Author {
  import opened PyStrings

  /** `<a href="mailto:EMAIL">NAME</a>`; nothing is escaped. */
  function Anchor(email: string, name: string): string
  {
    "<a href=\"mailto:" + email + "\">" + name + "</a>"
  }

  /** `<span>NAME</span>`; nothing is escaped. */
  function Span(name: string): string
  {
    "<span>" + name + "</span>"
  }

  /** The e-mail of a bracketed author: the first `>`-piece of the last `<`-piece. */
  function EmailOf(siteAuthor: string): string
  {
    var chunks := Split(siteAuthor, '<');
    Split(chunks[|chunks| - 1], '>')[0]
  }

  /** The name of a bracketed author: the first `<`-piece, stripped. */
  function NameOf(siteAuthor: string): string
  {
    Strip(Split(siteAuthor, '<')[0])
  }

  /** A non-empty e-mail gives an anchor; an absent or empty one a span. */
  function FormatAuthor(email: string, name: string): string
  {
    if email != [] then Anchor(email, name) else Span(name)
  }

  /**
   * The filter itself. Only when both `<` and `>` occur anywhere is an
   * e-mail looked for; otherwise the whole string, stripped, is the name
   * and the e-mail is absent, which `FormatAuthor` treats like an empty one.
   * The result is never absent.
   */
  function ParseAuthor(siteAuthor: string): string
  {
    if '<' in siteAuthor && '>' in siteAuthor then
      FormatAuthor(EmailOf(siteAuthor), NameOf(siteAuthor))
    else
      FormatAuthor([], Strip(siteAuthor))
  }

  /**
   * The address in a bracketed author, located by position: the text after
   * the last `<`, up to the first `>` after it or to the end.
   */
  function Address(siteAuthor: string): (email: string)
    ensures '<' !in email && '>' !in email
  {
    var tail := siteAuthor[LastIndexOf(siteAuthor, '<') + 1..];
    tail[..IndexOf(tail, '>')]
  }

  /** The display name in a bracketed author: the text before the first `<`, stripped. */
  function DisplayName(siteAuthor: string): (name: string)
    ensures '<' !in name && IsStripped(name)
  {
    Strip(siteAuthor[..IndexOf(siteAuthor, '<')])
  }

  /** The split-based extraction finds the positional address and display name. */
  lemma ExtractionByPosition(siteAuthor: string)
    ensures EmailOf(siteAuthor) == Address(siteAuthor)
    ensures NameOf(siteAuthor) == DisplayName(siteAuthor)
  {
    var chunks := Split(siteAuthor, '<');
    SplitFirst(siteAuthor, '<');
    SplitLast(siteAuthor, '<');
    SplitFirst(chunks[|chunks| - 1], '>');
  }

  /**
   * With both brackets present, the filter's answer is an anchor exactly
   * when the address between the last `<` and the next `>` is non-empty,
   * and a span of the display name otherwise.
   */
  lemma ParseBracketed(siteAuthor: string)
    requires '<' in siteAuthor && '>' in siteAuthor
    ensures Address(siteAuthor) != [] ==>
              ParseAuthor(siteAuthor) == Anchor(Address(siteAuthor), DisplayName(siteAuthor))
    ensures Address(siteAuthor) == [] ==> ParseAuthor(siteAuthor) == Span(DisplayName(siteAuthor))
  {
    ExtractionByPosition(siteAuthor);
  }

  /** Without one of the brackets, the whole author, stripped, is shown as a span. */
  lemma ParseUnbracketed(siteAuthor: string)
    requires '<' !in siteAuthor || '>' !in siteAuthor
    ensures ParseAuthor(siteAuthor) == Span(Strip(siteAuthor))
    ensures IsStripped(siteAuthor) ==> ParseAuthor(siteAuthor) == Span(siteAuthor)
  {
    if IsStripped(siteAuthor) {
      StripPadded(siteAuthor, []);
      assert siteAuthor + [] == siteAuthor;
    }
  }

  /**
   * Round trip of the conventional form: a stripped name without `<`,
   * one space, and a non-empty address without brackets, written as
   * `NAME <EMAIL>`, is parsed back into that address and that name.
   */
  lemma ParseConventional(name: string, email: string)
    requires IsStripped(name) && '<' !in name
    requires email != [] && '<' !in email && '>' !in email
    ensures ParseAuthor(name + " <" + email + ">") == Anchor(email, name)
  {
    var s := name + " <" + email + ">";
    var last := email + ">";
    assert '<' in s && '>' in s by {
      assert s[|name| + 1] == '<' && s[|s| - 1] == '>';
    }
    assert Split(s, '<') == [name + " ", last] by {
      assert s == (name + " ") + "<" + last;
      SplitUnique(s, '<', [name + " ", last]);
    }
    assert Split(last, '>')[0] == email by {
      assert last == email + ">" + [];
      SplitUnique(last, '>', [email, []]);
    }
    assert Strip(name + " ") == name by {
      StripPadded(name, " ");
    }
    assert EmailOf(s) == email && NameOf(s) == name;
  }

  /** Empty brackets give no address: `NAME <>` is a span of the name. */
  lemma ParseEmptyBrackets(name: string)
    requires IsStripped(name) && '<' !in name
    ensures ParseAuthor(name + " <>") == Span(name)
  {
    var s := name + " <>";
    assert '<' in s && '>' in s by {
      assert s[|name| + 1] == '<' && s[|s| - 1] == '>';
    }
    assert Split(s, '<') == [name + " ", ">"] by {
      assert s == (name + " ") + "<" + ">";
      SplitUnique(s, '<', [name + " ", ">"]);
    }
    assert Split(">", '>')[0] == [] by {
      assert ">" == [] + ">" + [];
      SplitUnique(">", '>', [[], []]);
    }
    assert Strip(name + " ") == name by {
      StripPadded(name, " ");
    }
    assert EmailOf(s) == [] && NameOf(s) == name;
  }

  /**
   * Only the presence of the brackets is checked, not their order: in
   * `A>B<C` the address is `C` and the name is `A>B`.
   */
  lemma ParseBracketsOutOfOrder(a: string, b: string, c: string)
    requires '<' !in a && '<' !in b && IsStripped(a + ">" + b)
    requires c != [] && '<' !in c && '>' !in c
    ensures ParseAuthor(a + ">" + b + "<" + c) == Anchor(c, a + ">" + b)
  {
    var name := a + ">" + b;
    var s := name + "<" + c;
    assert '<' in s && '>' in s by {
      assert s[|a|] == '>' && s[|name|] == '<';
    }
    assert Split(s, '<') == [name, c] by {
      SplitUnique(s, '<', [name, c]);
    }
    assert Split(c, '>')[0] == c by {
      SplitUnique(c, '>', [c]);
    }
    assert Strip(name) == name by {
      StripPadded(name, []);
      assert name + [] == name;
    }
    assert EmailOf(s) == c && NameOf(s) == name;
  }

  /**
   * With several bracketed parts, the last `<` opens the address:
   * `NAME <X> <Y>` gives `Y`.
   */
  lemma ParseSeveralBrackets(name: string, x: string, y: string)
    requires IsStripped(name) && '<' !in name && '<' !in x
    requires y != [] && '<' !in y && '>' !in y
    ensures ParseAuthor(name + " <" + x + "> <" + y + ">") == Anchor(y, name)
  {
    var s := name + " <" + x + "> <" + y + ">";
    var middle := x + "> ";
    var last := y + ">";
    assert '<' in s && '>' in s by {
      assert s[|name| + 1] == '<' && s[|s| - 1] == '>';
    }
    assert Split(s, '<') == [name + " ", middle, last] by {
      assert s == (name + " ") + "<" + (middle + "<" + last);
      SplitThree(name + " ", middle, last, '<');
    }
    assert Split(last, '>')[0] == y by {
      assert last == y + ">" + [];
      SplitUnique(last, '>', [y, []]);
    }
    assert Strip(name + " ") == name by {
      StripPadded(name, " ");
    }
    assert EmailOf(s) == y && NameOf(s) == name;
  }

  lemma SplitThree(a: string, b: string, c: string, sep: char)
    requires sep !in a && sep !in b && sep !in c
    ensures Split(a + [sep] + (b + [sep] + c), sep) == [a, b, c]
  {
    var pieces := [a, b, c];
    assert pieces[1..] == [b, c] && [b, c][1..] == [c];
    assert Join([c], sep) == c;
    assert Join([b, c], sep) == b + [sep] + c;
    SplitUnique(a + [sep] + (b + [sep] + c), sep, pieces);
  }
}
