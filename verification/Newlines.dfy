/**
 Text-mode reading.  `Path.read_text` translates every line ending to a single line feed, so a
 text read from a file and written back beside it is not always the file's own bytes.
 */
module Newlines {
  import opened Documents

  /** Universal newlines: CR LF and a lone CR both become LF. */
  function Translate(s: string): string {
    if s == "" then ""
    else if s[0] == '\r' then
      (if |s| > 1 && s[1] == '\n' then "\n" + Translate(s[2..]) else "\n" + Translate(s[1..]))
    else [s[0]] + Translate(s[1..])
  }

  function ReadText(c: Content): Content {
    Content(Translate(c.bytes))
  }

  lemma {:induction false} TranslateHasNoReturn(s: string)
    ensures '\r' !in Translate(s)
    decreases |s|
  {
    if s != "" {
      TranslateHasNoReturn(s[1..]);
      if s[0] == '\r' && |s| > 1 && s[1] == '\n' {
        TranslateHasNoReturn(s[2..]);
      }
    }
  }

  lemma {:induction false} TranslateFixesPlain(s: string)
    requires '\r' !in s
    ensures Translate(s) == s
    decreases |s|
  {
    if s != "" {
      assert s[0] in s && s == [s[0]] + s[1..];
      TranslateFixesPlain(s[1..]);
    }
  }

  /** The first return of a text, with the newline that may follow it, becomes one newline. */
  lemma {:induction false} TranslateFirstReturn(before: string, after: string)
    requires '\r' !in before
    ensures Translate(before + "\r\n" + after) == before + "\n" + Translate(after)
    ensures after == "" || after[0] != '\n' ==> Translate(before + "\r" + after) == before + "\n" + Translate(after)
  {
    var crlf, cr := before + "\r\n" + after, before + "\r" + after;
    if before == "" {
      assert crlf[2..] == after && cr[1..] == after;
    } else {
      assert before[0] in before;
      TranslateFirstReturn(before[1..], after);
      assert crlf[1..] == before[1..] + "\r\n" + after && cr[1..] == before[1..] + "\r" + after;
      assert before == [before[0]] + before[1..];
    }
  }

  /** A text copy is byte-exact exactly when the file has no carriage return. */
  lemma TextCopyExact(c: Content)
    ensures ReadText(c) == c <==> '\r' !in c.bytes
  {
    TranslateHasNoReturn(c.bytes);
    if '\r' !in c.bytes {
      TranslateFixesPlain(c.bytes);
    }
  }

  /** A one-line CRLF file is not restored byte for byte by its text copy. */
  lemma CrlfFileLosesItsReturn()
    ensures ReadText(Content("a\r\n")) == Content("a\n") && ReadText(Content("a\r\n")) != Content("a\r\n")
  {
    var s := "a\r\n";
    assert s[1..] == "\r\n" && s[1..][2..] == "";
    assert Translate("\r\n") == "\n" + Translate("");
    assert Translate(s) == [s[0]] + Translate(s[1..]) == "a\n";
    assert |"a\r\n"| == 3 && |"a\n"| == 2;
  }
}
