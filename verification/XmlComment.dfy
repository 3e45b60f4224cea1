/** Comments in the output of iptables-xml. */
module XmlComment {

  predicate HasDoubleHyphen(s: string) {
    exists k :: 0 <= k < |s| - 1 && s[k] == '-' && s[k + 1] == '-'
  }

  /** One character of a comment, with the count of hyphens since the last space was put in. */
  function EscapeChar(c: char, hyphens: nat, last: bool): (string, nat) {
    if c == '-' then
      if hyphens + 1 >= 2 then (" *-", 0) else ("*-", hyphens + 1)
    else if c == '\n' && last then ("", hyphens)
    else ([c], hyphens)
  }

  function EscapeFrom(comment: string, hyphens: nat): string
    decreases |comment|
  {
    if comment == "" then "" else
      var (text, h) := EscapeChar(comment[0], hyphens, |comment| == 1);
      text + EscapeFrom(comment[1..], h)
  }

  /** xmlCommentEscape */
  method EscapeComment(comment: string) returns (out: string)
    ensures out == EscapeFrom(comment, 0)
  {
    out := "";
    var rest, hCount := comment, 0;
    while rest != ""
      invariant out + EscapeFrom(rest, hCount) == EscapeFrom(comment, 0)
      decreases |rest|
    {
      var text, h := PutChar(rest[0], hCount, |rest| == 1);
      assert out + (text + EscapeFrom(rest[1..], h)) == (out + text) + EscapeFrom(rest[1..], h);
      out, hCount, rest := out + text, h, rest[1..];
    }
    assert out + "" == out;
  }

  /** One turn of the loop. */
  method PutChar(c: char, hCount: nat, last: bool) returns (text: string, h: nat)
    ensures (text, h) == EscapeChar(c, hCount, last)
  {
    text, h := "", hCount;
    if c == '-' {
      h := h + 1;
      if h >= 2 {
        h := 0;
        text := text + " ";
      }
      text := text + "*";
    }
    if !(c == '\n' && last) {
      text := text + [c];
    }
    assert text == EscapeChar(c, hCount, last).0;
  }

  /** Every hyphen is written after a star. */
  lemma {:induction false} HyphensFollowStars(comment: string, hyphens: nat, k: nat)
    requires k < |EscapeFrom(comment, hyphens)| && EscapeFrom(comment, hyphens)[k] == '-'
    ensures k > 0 && EscapeFrom(comment, hyphens)[k - 1] == '*'
    decreases |comment|
  {
    var (text, h) := EscapeChar(comment[0], hyphens, |comment| == 1);
    if k >= |text| {
      HyphensFollowStars(comment[1..], h, k - |text|);
    }
  }

  /** A comment body, the escaped text between two spaces, never contains "--", which section 2.5 of
      XML 1.0 forbids, and does not end in a hyphen. */
  lemma CommentBodyLegal(comment: string)
    ensures var body := [' '] + (EscapeFrom(comment, 0) + [' ']); !HasDoubleHyphen(body) && body[|body| - 1] != '-'
  {
    var out := EscapeFrom(comment, 0);
    var body := [' '] + (out + [' ']);
    forall k | 0 <= k < |body| - 1 && body[k + 1] == '-'
      ensures body[k] != '-'
    {
      assert body[k + 1] == out[k];
      HyphensFollowStars(comment, 0, k);
      assert body[k] == out[k - 1];
    }
  }

  /** Takes out what was put in: the star before every hyphen, and the space before every second star. */
  function Unescape(s: string, hyphens: nat): string
    decreases |s|
  {
    if s == "" then ""
    else if hyphens == 0 && "*-" <= s then ['-'] + Unescape(s[2..], 1)
    else if hyphens == 1 && " *-" <= s then ['-'] + Unescape(s[3..], 0)
    else [s[0]] + Unescape(s[1..], hyphens)
  }

  function WithoutNewline(comment: string): string {
    if comment != "" && comment[|comment| - 1] == '\n' then comment[..|comment| - 1] else comment
  }

  /** No hyphen comes first, nor second after a star when a space is due. */
  lemma StartsSafely(comment: string, hyphens: nat)
    requires hyphens <= 1
    ensures var s := EscapeFrom(comment, hyphens);
      (s != "" ==> s[0] != '-') && (hyphens == 1 ==> !("*-" <= s))
  {
    if comment != "" {
      var (text, h) := EscapeChar(comment[0], hyphens, |comment| == 1);
      var rest := EscapeFrom(comment[1..], h);
      if rest != "" && rest[0] == '-' {
        HyphensFollowStars(comment[1..], h, 0);
      }
      if comment[0] != '-' && rest != "" && text != "" {
        assert EscapeFrom(comment, hyphens)[1] == rest[0];
      }
    }
  }

  /** Nothing of a comment is lost but a newline at its end. */
  lemma {:induction false} UnescapeEscape(comment: string, hyphens: nat)
    requires hyphens <= 1
    ensures Unescape(EscapeFrom(comment, hyphens), hyphens) == WithoutNewline(comment)
    decreases |comment|
  {
    if comment != "" {
      var c, rest := comment[0], comment[1..];
      var (text, h) := EscapeChar(c, hyphens, |comment| == 1);
      var tail := EscapeFrom(rest, h);
      UnescapeEscape(rest, h);
      StartsSafely(rest, h);
      WithoutNewlineCons(comment);
      UnescapePiece(c, hyphens, tail);
      if |comment| == 1 && c == '\n' {
        assert EscapeFrom(comment, hyphens) == "";
      }
      hide EscapeFrom, Unescape, WithoutNewline;
    }
  }

  lemma WithoutNewlineCons(comment: string)
    requires comment != ""
    ensures comment == "\n" ==> WithoutNewline(comment) == ""
    ensures comment != "\n" ==> WithoutNewline(comment) == [comment[0]] + WithoutNewline(comment[1..])
  {
  }

  lemma UnescapePiece(c: char, hyphens: nat, tail: string)
    requires hyphens <= 1
    requires var h := EscapeChar(c, hyphens, false).1;
      (tail != "" ==> tail[0] != '-') && (h == 1 ==> !("*-" <= tail))
    ensures var (text, h) := EscapeChar(c, hyphens, false);
      Unescape(text + tail, hyphens) == [c] + Unescape(tail, h)
  {
    var (text, h) := EscapeChar(c, hyphens, false);
    var s := text + tail;
    assert s[|text|..] == tail;
    if c == '-' {
      assert s[..|text|] == text;
    } else if tail != "" {
      assert s[1] == tail[0];
      if " *-" <= s {
        assert tail[0] == s[1] == '*' && tail[1] == s[2] == '-';
      }
    }
  }
}
