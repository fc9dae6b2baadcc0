/**
 * Text helpers shared by the handlers: Markdown escaping of file names, the
 * 4000-character chunking of long replies, `tail`'s last ten lines and
 * `cat`'s first thousand characters.
 */
module Messages {
  import opened Text

  /** The characters `escape_markdown` puts a backslash before. */
  predicate IsMarkdownSpecial(c: char)
  {
    c == '_' || c == '`' || c == '|' || c == '*'
  }

  /** `re.sub(r'([_`|*])', r'\\\1', text)`. */
  function EscapeMarkdown(s: string): string
  {
    if s == [] then []
    else (if IsMarkdownSpecial(s[0]) then ['\\', s[0]] else [s[0]]) + EscapeMarkdown(s[1..])
  }

  function SpecialCount(s: string): nat
  {
    if s == [] then 0 else (if IsMarkdownSpecial(s[0]) then 1 else 0) + SpecialCount(s[1..])
  }

  /** Reading escaped text back: a backslash stands for the character after it. */
  function Unescape(s: string): string
  {
    if s == [] then []
    else if s[0] == '\\' && |s| >= 2 then [s[1]] + Unescape(s[2..])
    else [s[0]] + Unescape(s[1..])
  }

  /** Escaping grows the text by one backslash per special character. */
  lemma {:induction false} EscapeLength(s: string)
    ensures |EscapeMarkdown(s)| == |s| + SpecialCount(s)
  {
    if s != [] {
      EscapeLength(s[1..]);
    }
  }

  /** Text without backslashes survives escaping and unescaping unchanged. */
  lemma {:induction false} UnescapeEscape(s: string)
    requires '\\' !in s
    ensures Unescape(EscapeMarkdown(s)) == s
  {
    if s != [] {
      assert '\\' !in s[1..];
      UnescapeEscape(s[1..]);
      var rest := EscapeMarkdown(s[1..]);
      if IsMarkdownSpecial(s[0]) {
        assert EscapeMarkdown(s) == ['\\', s[0]] + rest;
        assert (['\\', s[0]] + rest)[2..] == rest;
      } else {
        assert EscapeMarkdown(s) == [s[0]] + rest;
        assert ([s[0]] + rest)[1..] == rest;
      }
    }
  }

  /** Every special character of the escaped text is right after a backslash. */
  lemma {:induction false} EscapedSpecialsArePreceded(s: string, k: nat)
    requires '\\' !in s
    requires k < |EscapeMarkdown(s)| && IsMarkdownSpecial(EscapeMarkdown(s)[k])
    ensures k >= 1 && EscapeMarkdown(s)[k - 1] == '\\'
  {
    var rest := EscapeMarkdown(s[1..]);
    assert '\\' !in s[1..];
    if IsMarkdownSpecial(s[0]) {
      assert EscapeMarkdown(s) == ['\\', s[0]] + rest;
      if k >= 2 {
        EscapedSpecialsArePreceded(s[1..], k - 2);
      }
    } else {
      assert EscapeMarkdown(s) == [s[0]] + rest;
      if k >= 1 {
        EscapedSpecialsArePreceded(s[1..], k - 1);
      }
    }
  }

  /** Telegram's limit the handlers chunk at. */
  const ChunkSize := 4000

  function Min(a: int, b: int): int { if a <= b then a else b }

  /** `message[i:i + 4000]` for `i` in `range(0, len(message), 4000)`. */
  function Pieces(msg: string): seq<string>
    decreases |msg|
  {
    if msg == [] then [] else [msg[..Min(ChunkSize, |msg|)]] + Pieces(msg[Min(ChunkSize, |msg|)..])
  }

  /** What one reply sends: the chunks of a long message, the message itself otherwise (even when it is empty). */
  function Replies(msg: string): seq<string>
  {
    if |msg| > ChunkSize then Pieces(msg) else [msg]
  }

  function Concat(parts: seq<string>): string
  {
    if parts == [] then [] else parts[0] + Concat(parts[1..])
  }

  lemma {:induction false} ConcatAppend(a: seq<string>, b: seq<string>)
    ensures Concat(a + b) == Concat(a) + Concat(b)
  {
    if a == [] {
      assert a + b == b;
    } else {
      assert (a + b)[1..] == a[1..] + b;
      ConcatAppend(a[1..], b);
    }
  }

  /** The chunks put back together are the message, each has 1 to 4000 characters and all but the last have exactly 4000. */
  lemma {:induction false} PiecesSplit(msg: string)
    ensures Concat(Pieces(msg)) == msg
    ensures forall i :: 0 <= i < |Pieces(msg)| ==> 1 <= |Pieces(msg)[i]| <= ChunkSize
    ensures forall i :: 0 <= i < |Pieces(msg)| - 1 ==> |Pieces(msg)[i]| == ChunkSize
    ensures |Pieces(msg)| == (|msg| + ChunkSize - 1) / ChunkSize
    decreases |msg|
  {
    if msg != [] {
      var k := Min(ChunkSize, |msg|);
      PiecesSplit(msg[k..]);
      assert msg[..k] + msg[k..] == msg;
      var ps := Pieces(msg);
      assert ps[1..] == Pieces(msg[k..]);
      forall i | 0 <= i < |ps| - 1 ensures |ps[i]| == ChunkSize {
        if i > 0 {
          assert ps[i] == Pieces(msg[k..])[i - 1];
        } else {
          assert |msg[k..]| > 0;
        }
      }
    }
  }

  /** A reply never sends more than 4000 characters at a time, except a short message unchanged, and nothing is lost. */
  lemma RepliesSplit(msg: string)
    ensures Concat(Replies(msg)) == msg
    ensures forall i :: 0 <= i < |Replies(msg)| ==> |Replies(msg)[i]| <= ChunkSize
    ensures |msg| <= ChunkSize ==> Replies(msg) == [msg]
  {
    PiecesSplit(msg);
    assert Concat([msg]) == msg + Concat([]);
  }

  /** The sending loop: one `reply_text` call per element of `sent`. */
  method SendChunks(msg: string) returns (sent: seq<string>)
    ensures sent == Replies(msg)
  {
    if |msg| <= ChunkSize {
      return [msg];
    }
    sent := [];
    var i := 0;
    while i < |msg|
      invariant 0 <= i <= |msg|
      invariant sent + Pieces(msg[i..]) == Pieces(msg)
      decreases |msg| - i
    {
      var j := Min(i + ChunkSize, |msg|);
      assert msg[i..][..Min(ChunkSize, |msg| - i)] == msg[i..j];
      assert msg[i..][Min(ChunkSize, |msg| - i)..] == msg[j..];
      sent := sent + [msg[i..j]];
      i := j;
    }
    assert msg[i..] == [];
  }

  const TailLines := 10

  /** `lines[-10:]`: the last ten lines, or all of them when there are fewer. */
  function LastLines(lines: seq<string>): (r: seq<string>)
    ensures |r| == Min(TailLines, |lines|)
    ensures lines == lines[..|lines| - |r|] + r
  {
    if |lines| <= TailLines then lines else lines[|lines| - TailLines..]
  }

  /** `tail`'s text: the last ten lines joined with nothing between (they keep their line ends). */
  function TailText(lines: seq<string>): string
  {
    Concat(LastLines(lines))
  }

  /** The tail is the end of the file's text. */
  lemma TailIsSuffix(lines: seq<string>)
    ensures Concat(lines) == Concat(lines[..|lines| - |LastLines(lines)|]) + TailText(lines)
  {
    var r := LastLines(lines);
    ConcatAppend(lines[..|lines| - |r|], r);
  }

  const CatLimit := 1000

  /** `f.read(1000)` in text mode: the first thousand characters of the file. */
  function CatText(lines: seq<string>): (r: string)
    ensures |r| == Min(CatLimit, |Concat(lines)|)
    ensures r <= Concat(lines)
  {
    Concat(lines)[..Min(CatLimit, |Concat(lines)|)]
  }
}
