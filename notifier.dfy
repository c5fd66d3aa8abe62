/**
 * The notification built by `compare_and_report_differences` when posts were
 * added: one message with a fixed subject whose body is a fixed header
 * followed by one line per added post.
 */
module Notifier {
  import opened Posts

  const Subject: string := "New Posts Found"
  const HeaderLine: string := "New posts added:"
  /** The body's first two lines: the header and an empty line. */
  const Header: string := HeaderLine + "\n\n"

  /** What `send_email` is asked to deliver. */
  datatype Message = Message(subject: string, body: string)

  /** The text of a post's line in the body, without its line break. */
  function LineText(p: Post): (t: string)
    ensures |t| == |p.title| + |p.url| + 5
    ensures t[0] == '-' && t[1] == ' ' && t[|t| - 1] == ')'
    ensures SingleLine(p) ==> '\n' !in t
  {
    "- " + p.title + " (" + p.url + ")"
  }

  /** The lines for the listed posts, each ended by a line break, in the order listed. */
  function Lines(listed: seq<Post>): (text: string)
    ensures text == [] <==> listed == []
    ensures text != [] ==> text[|text| - 1] == '\n'
  {
    if listed == [] then "" else LineText(listed[0]) + "\n" + Lines(listed[1..])
  }

  lemma {:induction false} LinesSnoc(listed: seq<Post>, p: Post)
    ensures Lines(listed + [p]) == Lines(listed) + LineText(p) + "\n"
  {
    if listed == [] {
      assert listed + [p] == [p];
    } else {
      assert (listed + [p])[1..] == listed[1..] + [p];
      LinesSnoc(listed[1..], p);
    }
  }

  /** The loop that grows `email_body` by one line per listed post. */
  method BuildBody(listed: seq<Post>) returns (body: string)
    ensures body == Header + Lines(listed)
  {
    body := Header;
    for i := 0 to |listed|
      invariant body == Header + Lines(listed[..i])
    {
      LinesSnoc(listed[..i], listed[i]);
      assert listed[..i + 1] == listed[..i] + [listed[i]];
      body := body + LineText(listed[i]) + "\n";
    }
    assert listed[..|listed|] == listed;
  }

  /** The text before the first line break of `s`, and what follows that break. */
  function FirstLine(s: string): (r: (string, string))
    ensures '\n' !in r.0
    ensures s != [] ==> |r.1| < |s|
  {
    if s == [] then ("", "")
    else if s[0] == '\n' then ("", s[1..])
    else
      var (line, rest) := FirstLine(s[1..]);
      ([s[0]] + line, rest)
  }

  /** `s.split("\n")` without the empty piece after a final line break. */
  function SplitLines(s: string): (lines: seq<string>)
    ensures forall k :: 0 <= k < |lines| ==> '\n' !in lines[k]
    decreases |s|
  {
    if s == [] then []
    else
      var (line, rest) := FirstLine(s);
      [line] + SplitLines(rest)
  }

  lemma {:induction false} FirstLineOf(text: string, rest: string)
    requires '\n' !in text
    ensures FirstLine(text + "\n" + rest) == (text, rest)
  {
    var s := text + "\n" + rest;
    if text == [] {
      assert s == "\n" + rest;
      assert s[1..] == rest;
    } else {
      assert s[0] == text[0];
      assert s[1..] == text[1..] + "\n" + rest;
      FirstLineOf(text[1..], rest);
      assert [text[0]] + text[1..] == text;
    }
  }

  /** A post whose fields hold no line break. */
  predicate SingleLine(p: Post) {
    '\n' !in p.title && '\n' !in p.url
  }

  lemma {:induction false} SplitLinesOfLines(listed: seq<Post>)
    requires forall p :: p in listed ==> SingleLine(p)
    ensures var lines := SplitLines(Lines(listed));
      && |lines| == |listed|
      && forall k :: 0 <= k < |listed| ==> lines[k] == LineText(listed[k])
  {
    if listed != [] {
      var p := listed[0];
      assert SingleLine(p);
      assert '\n' !in LineText(p);
      FirstLineOf(LineText(p), Lines(listed[1..]));
      SplitLinesOfLines(listed[1..]);
    }
  }

  /**
   * Read back line by line, a body is the header line, an empty line, and
   * then exactly one line per listed post, in the order listed (as long as
   * no title or url holds a line break of its own).
   */
  lemma BodyLines(listed: seq<Post>)
    requires forall p :: p in listed ==> SingleLine(p)
    ensures var lines := SplitLines(Header + Lines(listed));
      && |lines| == |listed| + 2
      && lines[0] == HeaderLine && lines[1] == ""
      && forall k :: 0 <= k < |listed| ==> lines[k + 2] == LineText(listed[k])
  {
    var body := Lines(listed);
    assert Header + body == HeaderLine + "\n" + ("" + "\n" + body);
    FirstLineOf(HeaderLine, "" + "\n" + body);
    FirstLineOf("", body);
    assert "" + "\n" + body == "\n" + body;
    SplitLinesOfLines(listed);
  }
}
