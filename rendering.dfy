/** The output page: the fixed HTML template, the placeholder written at start-up,
    and the rendering of a transcript (line breaks become paragraph breaks). */
module Rendering {

  /** The page template: a page that refreshes itself every second, with one
      `{}` field where the text goes. */
  const Tpl: string :=
    "<head>\n" + "    <meta http-equiv=\"refresh\" content=\"1\">\n" + "</head>\n" + "<body>\n" + "{}" + "\n" + "</body>\n"

  /** The part of the template before its field, and the part after it. */
  const TplHead: string := "<head>\n" + "    <meta http-equiv=\"refresh\" content=\"1\">\n" + "</head>\n" + "<body>\n"
  const TplTail: string := "\n" + "</body>\n"

  /** The text of the page written before any transcription has happened. */
  const WaitingMessage: string := "Waiting for the transcription to start..."

  /** What every line break of a transcript becomes on the page. */
  const ParagraphBreak: string := "</p>"

  /** Filling a template that has a single `{}` field (and no other braces):
      the first `{}` is replaced by `arg`; a template without a field is
      returned as it is. */
  function Format(tpl: string, arg: string): string
  {
    if |tpl| < 2 then tpl
    else if tpl[0] == '{' && tpl[1] == '}' then arg + tpl[2..]
    else [tpl[0]] + Format(tpl[1..], arg)
  }

  /** A template without a `{` comes back as it is. */
  lemma {:induction false} FormatNoField(tpl: string, arg: string)
    requires '{' !in tpl
    ensures Format(tpl, arg) == tpl
  {
    if |tpl| >= 2 {
      assert '{' !in tpl[1..];
      FormatNoField(tpl[1..], arg);
      assert [tpl[0]] + tpl[1..] == tpl;
    }
  }

  /** `page` is `tpl` with its `{}` pair at position `i` replaced by `arg`. */
  predicate FilledAt(tpl: string, arg: string, i: nat, page: string)
  {
    i + 2 <= |tpl| && tpl[i] == '{' && tpl[i + 1] == '}' && page == tpl[..i] + arg + tpl[i + 2..]
  }

  /** Filling either leaves a template as it is or replaces one of its `{}`
      pairs by the whole argument, keeping the text around that pair. */
  lemma {:induction false} FormatFillsPair(tpl: string, arg: string)
    ensures Format(tpl, arg) == tpl || exists i: nat :: FilledAt(tpl, arg, i, Format(tpl, arg))
  {
    if |tpl| < 2 {
    } else if tpl[0] == '{' && tpl[1] == '}' {
      assert tpl[..0] + arg + tpl[2..] == arg + tpl[2..];
      assert FilledAt(tpl, arg, 0, Format(tpl, arg));
    } else {
      var rest := Format(tpl[1..], arg);
      FormatFillsPair(tpl[1..], arg);
      assert Format(tpl, arg) == [tpl[0]] + rest;
      if rest == tpl[1..] {
        assert [tpl[0]] + tpl[1..] == tpl;
      } else {
        var k: nat :| FilledAt(tpl[1..], arg, k, rest);
        FilledAtShift(tpl, arg, k, rest);
      }
    }
  }

  /** A pair filled in the template's tail is a pair filled in the template,
      one position further on. */
  lemma FilledAtShift(tpl: string, arg: string, k: nat, rest: string)
    requires |tpl| > 0 && FilledAt(tpl[1..], arg, k, rest)
    ensures FilledAt(tpl, arg, k + 1, [tpl[0]] + rest)
  {
    assert [tpl[0]] + tpl[1..][..k] == tpl[..k + 1];
    assert tpl[1..][k + 2..] == tpl[k + 3..];
  }

  /** Filling a template puts the argument exactly where the field was and
      leaves the text around the field unchanged. */
  lemma {:induction false} FormatFillsField(head: string, tail: string, arg: string)
    requires '{' !in head
    ensures Format(head + "{}" + tail, arg) == head + arg + tail
  {
    var tpl := head + "{}" + tail;
    if head == [] {
      assert tpl == "{}" + tail;
      assert tpl[2..] == tail;
    } else {
      assert tpl[0] == head[0];
      assert tpl[1..] == head[1..] + "{}" + tail;
      FormatFillsField(head[1..], tail, arg);
      assert [head[0]] + (head[1..] + arg + tail) == head + arg + tail;
    }
  }

  /** The template is its head, the field and its tail, and the head holds
      no brace, so the field is the first `{}` of the template. */
  lemma TplSplit()
    ensures Tpl == TplHead + "{}" + TplTail
    ensures '{' !in TplHead
  {
    assert '{' !in "<head>\n";
    assert '{' !in "    <meta http-equiv=\"refresh\" content=\"1\">\n";
    assert '{' !in "</head>\n";
    assert '{' !in "<body>\n";
  }

  /** The number of line breaks in `s`. */
  function NewlineCount(s: string): nat
  {
    multiset(s)['\n']
  }

  /** Every `'\n'` of `s` replaced by `"</p>"`, all other characters kept in place. */
  function ReplaceNewlines(s: string): (r: string)
    ensures '\n' !in r
  {
    if s == [] then []
    else (if s[0] == '\n' then ParagraphBreak else [s[0]]) + ReplaceNewlines(s[1..])
  }

  /** Replacing line breaks works piecewise: the replacement of a concatenation
      is the concatenation of the replacements. */
  lemma {:induction false} ReplaceNewlinesAppend(a: string, b: string)
    ensures ReplaceNewlines(a + b) == ReplaceNewlines(a) + ReplaceNewlines(b)
  {
    if a == [] {
      assert a + b == b;
    } else {
      assert (a + b)[0] == a[0];
      assert (a + b)[1..] == a[1..] + b;
      ReplaceNewlinesAppend(a[1..], b);
    }
  }

  /** Each line break grows the text by three characters (one character becomes four). */
  lemma {:induction false} ReplaceNewlinesLength(s: string)
    ensures |ReplaceNewlines(s)| == |s| + 3 * NewlineCount(s)
  {
    if s != [] {
      assert s == [s[0]] + s[1..];
      assert multiset(s) == multiset([s[0]]) + multiset(s[1..]);
      ReplaceNewlinesLength(s[1..]);
    }
  }

  /** Replacement changes a text if and only if it has a line break. */
  lemma ReplaceNewlinesUnchangedIff(s: string)
    ensures ReplaceNewlines(s) == s <==> '\n' !in s
  {
    ReplaceNewlinesLength(s);
    if '\n' !in s {
      NoNewlineUnchanged(s);
    }
  }

  /** A text without line breaks passes through replacement unchanged. */
  lemma {:induction false} NoNewlineUnchanged(s: string)
    requires '\n' !in s
    ensures ReplaceNewlines(s) == s
  {
    if s != [] {
      assert s[0] != '\n';
      assert '\n' !in s[1..];
      NoNewlineUnchanged(s[1..]);
      assert [s[0]] + s[1..] == s;
    }
  }

  /** The page shown for transcript `transcribed`. */
  function Render(transcribed: string): (page: string)
    ensures page == TplHead + ReplaceNewlines(transcribed) + TplTail
  {
    TplSplit();
    FormatFillsField(TplHead, TplTail, ReplaceNewlines(transcribed));
    Format(Tpl, ReplaceNewlines(transcribed))
  }

  /** The page written when the program starts. */
  function Placeholder(): (page: string)
    ensures page == TplHead + WaitingMessage + TplTail
  {
    TplSplit();
    FormatFillsField(TplHead, TplTail, WaitingMessage);
    Format(Tpl, WaitingMessage)
  }

  /** Only the field of the template depends on the transcript: two rendered
      pages agree on everything outside it, and the field holds no line break. */
  lemma RenderKeepsTemplate(t1: string, t2: string)
    ensures Render(t1)[..|TplHead|] == Render(t2)[..|TplHead|] == TplHead
    ensures Render(t1)[|Render(t1)| - |TplTail|..] == Render(t2)[|Render(t2)| - |TplTail|..] == TplTail
    ensures '\n' !in Render(t1)[|TplHead|..|Render(t1)| - |TplTail|]
  {
  }

  /** Two lines joined by one line break are shown as two paragraphs
      ("hello\nworld" is shown as "hello</p>world"). */
  lemma RenderTwoLines(first: string, second: string)
    requires '\n' !in first && '\n' !in second
    ensures Render(first + "\n" + second) == TplHead + first + ParagraphBreak + second + TplTail
  {
    ReplaceTwoLines(first, second);
  }

  /** Two break-free lines joined by one line break become two paragraphs. */
  lemma ReplaceTwoLines(first: string, second: string)
    requires '\n' !in first && '\n' !in second
    ensures ReplaceNewlines(first + "\n" + second) == first + ParagraphBreak + second
  {
    assert ReplaceNewlines("\n" + second) == ParagraphBreak + ReplaceNewlines(second) by {
      assert ("\n" + second)[0] == '\n';
      assert ("\n" + second)[1..] == second;
    }
    assert first + "\n" + second == first + ("\n" + second);
    ReplaceNewlinesAppend(first, "\n" + second);
    NoNewlineUnchanged(first);
    NoNewlineUnchanged(second);
  }

  /** A transcript that starts with a line break (as every assembled
      transcript does) never renders as the placeholder page. */
  lemma RenderedNotPlaceholder(transcribed: string)
    requires |transcribed| > 0 && transcribed[0] == '\n'
    ensures Render(transcribed) != Placeholder()
  {
    var field := ReplaceNewlines(transcribed);
    assert field[0] == '<';
    assert Render(transcribed)[|TplHead|] == '<';
    assert Placeholder()[|TplHead|] == 'W';
  }
}
