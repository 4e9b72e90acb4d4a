/**
 * The image upload body that `publishPost` frames by hand as
 * multipart/form-data: a random boundary, the part header text, the file's
 * bytes and the closing delimiter, each text encoded as UTF-8
 * (`TextEncoder`) and concatenated (`new Blob([...]).arrayBuffer()`).
 *
 * `Math.random().toString(36)` is a parameter, `randomText`.
 */
module Multipart {
  import opened Text
  import opened Bytes

  /** `N`: the length of the random part of the boundary. */
  const RandomLength := 16

  const Padding := "00000000000000000"

  const BoundaryPrefix := "djmangoBoundry"

  // ---------------------------------------------------------------------------
  // UTF-8, as `TextEncoder.encode` produces it

  /** The UTF-8 bytes of one Unicode scalar value. */
  function EncodeChar(c: char): (b: seq<byte>)
    ensures 1 <= |b| <= 4
    ensures |b| == 1 <==> c as int < 0x80
    ensures |b| == 1 ==> b[0] as int == c as int
  {
    var n := c as int;
    if n < 0x80 then [n as byte]
    else if n < 0x800 then [(0xC0 + n / 0x40) as byte, (0x80 + n % 0x40) as byte]
    else if n < 0x1_0000 then
      [(0xE0 + n / 0x1000) as byte, (0x80 + (n / 0x40) % 0x40) as byte, (0x80 + n % 0x40) as byte]
    else
      [(0xF0 + n / 0x4_0000) as byte, (0x80 + (n / 0x1000) % 0x40) as byte,
       (0x80 + (n / 0x40) % 0x40) as byte, (0x80 + n % 0x40) as byte]
  }

  /** `TextEncoder.encode`: the characters' encodings, one after the other. */
  function Encode(s: string): seq<byte>
    decreases |s|
  {
    if s == [] then [] else EncodeChar(s[0]) + Encode(s[1..])
  }

  /** Every character takes one to four bytes. */
  lemma {:induction false} EncodeLength(s: string)
    ensures |s| <= |Encode(s)| <= 4 * |s|
    decreases |s|
  {
    if s != [] {
      EncodeLength(s[1..]);
    }
  }

  /** Encoding distributes over concatenation. */
  lemma {:induction false} EncodeAppend(a: string, b: string)
    ensures Encode(a + b) == Encode(a) + Encode(b)
    decreases |a|
  {
    if a != [] {
      assert (a + b)[1..] == a[1..] + b;
      EncodeAppend(a[1..], b);
    } else {
      assert a + b == b;
    }
  }

  predicate IsAscii(s: string)
  {
    forall i :: 0 <= i < |s| ==> s[i] as int < 0x80
  }

  /** ASCII text is encoded one byte per character, each byte the character's code. */
  lemma {:induction false} EncodeAscii(s: string)
    requires IsAscii(s)
    ensures |Encode(s)| == |s|
    ensures forall i :: 0 <= i < |s| ==> Encode(s)[i] as int == s[i] as int
    decreases |s|
  {
    if s != [] {
      EncodeAscii(s[1..]);
      assert Encode(s) == EncodeChar(s[0]) + Encode(s[1..]);
      forall i | 0 <= i < |s| ensures Encode(s)[i] as int == s[i] as int {
        if i > 0 {
          assert Encode(s)[i] == Encode(s[1..])[i - 1];
          assert s[1..][i - 1] == s[i];
        }
      }
    }
  }

  // ---------------------------------------------------------------------------
  // The boundary

  /** `Array(n + 1).join(piece)`: the `n + 1` empty elements are joined by `n` copies of `piece`. */
  function Repeat(n: nat, piece: string): string
  {
    if n == 0 then [] else piece + Repeat(n - 1, piece)
  }

  /** A repetition of a non-empty piece has at least one character per copy. */
  lemma {:induction false} RepeatLength(n: nat, piece: string)
    requires piece != []
    ensures |Repeat(n, piece)| >= n
  {
    if n > 0 {
      RepeatLength(n - 1, piece);
    }
  }

  /** Every character of a repetition is a character of the piece. */
  lemma {:induction false} RepeatChars(n: nat, piece: string)
    ensures forall i :: 0 <= i < |Repeat(n, piece)| ==> Repeat(n, piece)[i] in piece
  {
    if n > 0 {
      RepeatChars(n - 1, piece);
      var r := Repeat(n, piece);
      forall i | 0 <= i < |r| ensures r[i] in piece {
        if i >= |piece| {
          assert r[i] == Repeat(n - 1, piece)[i - |piece|];
        }
      }
    }
  }

  /** A repetition starts with the piece and repeats itself every `|piece|` characters. */
  lemma {:induction false} RepeatPeriodic(n: nat, piece: string, i: nat)
    requires i + |piece| < |Repeat(n, piece)|
    ensures n >= 1 && Repeat(n, piece)[..|piece|] == piece
    ensures Repeat(n, piece)[i + |piece|] == Repeat(n, piece)[i]
  {
    var r := Repeat(n, piece);
    var rest := Repeat(n - 1, piece);
    assert r == piece + rest;
    assert r[i + |piece|] == rest[i];
    if i >= |piece| {
      RepeatPeriodic(n - 1, piece, i - |piece|);
    } else {
      assert n - 1 >= 1;
      assert rest == piece + Repeat(n - 2, piece);
    }
  }

  /** `(Math.random().toString(36) + "00000000000000000").slice(2, 18)` */
  function RandomPiece(randomText: string): (p: string)
    ensures |p| == if randomText == [] then 15 else 16
    ensures forall i :: 0 <= i < |p| ==> p[i] == (randomText + Padding)[i + 2]
  {
    Slice(randomText + Padding, 2, 18)
  }

  /** `Array(N + 1).join(piece).slice(0, N)` */
  function RandomSuffix(randomText: string): (r: string)
    ensures |r| == RandomLength
  {
    var piece := RandomPiece(randomText);
    RepeatedPrefix(piece);
    Slice(Repeat(RandomLength, piece), 0, RandomLength)
  }

  /** `randomBoundryString` */
  function Boundary(randomText: string): (b: string)
    ensures |b| == |BoundaryPrefix| + RandomLength
    ensures b[..|BoundaryPrefix|] == BoundaryPrefix
  {
    BoundaryPrefix + RandomSuffix(randomText)
  }

  /**
   * For any non-empty piece, the first `N` characters of its `N`-fold
   * repetition are exactly `N` characters: the piece from its start, then
   * over again every `|piece|` characters.
   */
  lemma RepeatedPrefix(piece: string)
    requires piece != []
    ensures var r := Slice(Repeat(RandomLength, piece), 0, RandomLength);
      |r| == RandomLength &&
      (forall i :: 0 <= i < Min(|piece|, RandomLength) ==> r[i] == piece[i]) &&
      (forall i :: 0 <= i && i + |piece| < RandomLength ==> r[i + |piece|] == r[i])
  {
    var rep := Repeat(RandomLength, piece);
    RepeatLength(RandomLength, piece);
    assert rep == piece + Repeat(RandomLength - 1, piece);
    forall i | 0 <= i && i + |piece| < RandomLength ensures rep[i + |piece|] == rep[i] {
      RepeatPeriodic(RandomLength, piece, i);
    }
  }

  /**
   * The boundary is "djmangoBoundry" and 16 more characters; when the random
   * text is not empty those are exactly the sixteen characters after its "0.".
   */
  lemma BoundaryShape(randomText: string)
    ensures |RandomSuffix(randomText)| == RandomLength
    ensures |Boundary(randomText)| == |BoundaryPrefix| + RandomLength
    ensures Boundary(randomText)[..|BoundaryPrefix|] == BoundaryPrefix
    ensures randomText != [] ==> RandomSuffix(randomText) == RandomPiece(randomText)
  {
    var piece := RandomPiece(randomText);
    RepeatedPrefix(piece);
    assert Repeat(RandomLength, piece) == piece + Repeat(RandomLength - 1, piece);
  }

  // ---------------------------------------------------------------------------
  // The framed body

  const Crlf := "\r\n"

  /** The part's header lines after the opening delimiter line, with the blank line. */
  const PartHeaders := "Content-Disposition: form-data; name=\"image_file\"; filename=\"blob\""
    + "\r\nContent-Type: \"application/octet-stream\"\r\n\r\n"

  /** `pre_string`: the opening delimiter line and the part's header lines. */
  function PreString(boundary: string): string
  {
    "------" + boundary + Crlf + PartHeaders
  }

  /** `post_string`: the closing delimiter. */
  function PostString(boundary: string): string
  {
    Crlf + "------" + boundary + "--"
  }

  /** The boundary parameter announced in the content type, `----` + boundary. */
  function BoundaryParameter(boundary: string): string
  {
    "----" + boundary
  }

  /** `multipart/form-data; boundary=----<boundary>` */
  function ContentType(boundary: string): string
  {
    "multipart/form-data; boundary=" + BoundaryParameter(boundary)
  }

  /** The concatenated `ArrayBuffer`: encoded header text, the file, encoded trailer. */
  function UploadBody(boundary: string, file: seq<byte>): seq<byte>
  {
    Encode(PreString(boundary)) + file + Encode(PostString(boundary))
  }

  /**
   * The file's bytes sit unchanged right after the encoded header, and the
   * length is the sum of the three parts.
   */
  lemma FileEmbedded(boundary: string, file: seq<byte>)
    ensures var pre := Encode(PreString(boundary)); var body := UploadBody(boundary, file);
      |body| == |pre| + |file| + |Encode(PostString(boundary))| &&
      body[|pre|..|pre| + |file|] == file
  {
    var pre := Encode(PreString(boundary));
    var body := UploadBody(boundary, file);
    assert body == pre + file + Encode(PostString(boundary));
    assert body[|pre|..|pre| + |file|] == file;
  }

  /**
   * Section 5.1.1 of RFC 2046: the body opens with the delimiter line
   * "--" + the content type's boundary parameter + CRLF, and ends with the
   * close delimiter CRLF + "--" + parameter + "--".
   */
  lemma DelimitersMatchParameter(boundary: string, file: seq<byte>)
    ensures var open := Encode("--" + BoundaryParameter(boundary) + Crlf);
      var close := Encode(Crlf + "--" + BoundaryParameter(boundary) + "--");
      var body := UploadBody(boundary, file);
      |open| + |close| <= |body| &&
      body[..|open|] == open && body[|body| - |close|..] == close
  {
    var param := BoundaryParameter(boundary);
    assert "------" + boundary == "--" + param;
    var openText := "--" + param + Crlf;
    assert PreString(boundary) == openText + PartHeaders;
    assert PostString(boundary) == Crlf + "--" + param + "--";
    EncodeAppend(openText, PartHeaders);
    var open := Encode(openText);
    var close := Encode(PostString(boundary));
    var body := UploadBody(boundary, file);
    assert body == open + (Encode(PartHeaders) + file + close);
    assert body[..|open|] == open;
    assert body == (open + Encode(PartHeaders) + file) + close;
    assert body[|body| - |close|..] == close;
  }

  /** Characters `Number.prototype.toString(36)` writes for a number in [0, 1). */
  predicate IsBase36Char(c: char)
  {
    ('0' <= c <= '9') || ('a' <= c <= 'z') || c == '.'
  }

  /** The `bchars` of RFC 2046 section 5.1.1. */
  predicate IsBChar(c: char)
  {
    ('0' <= c <= '9') || ('a' <= c <= 'z') || ('A' <= c <= 'Z') ||
    c in "'()+_,-./:=? "
  }

  /**
   * The parameter is a legal boundary by section 5.1.1 of RFC 2046: 1 to 70
   * `bchars`, not ending in a space.
   */
  lemma BoundaryParameterValid(randomText: string)
    requires forall i :: 0 <= i < |randomText| ==> IsBase36Char(randomText[i])
    ensures var p := BoundaryParameter(Boundary(randomText));
      1 <= |p| <= 70 && (forall i :: 0 <= i < |p| ==> IsBChar(p[i])) && p[|p| - 1] != ' '
  {
    BoundaryShape(randomText);
    var piece := RandomPiece(randomText);
    var suffix := RandomSuffix(randomText);
    RepeatChars(RandomLength, piece);
    forall c | c in piece ensures IsBase36Char(c) {
      var j :| 0 <= j < |piece| && piece[j] == c;
      if j + 2 >= |randomText| {
        assert (randomText + Padding)[j + 2] == Padding[j + 2 - |randomText|];
      }
    }
    var p := BoundaryParameter(Boundary(randomText));
    assert p == "----" + BoundaryPrefix + suffix;
    forall i | 0 <= i < |p| ensures IsBChar(p[i]) {
      if i >= 4 + |BoundaryPrefix| {
        assert p[i] == suffix[i - 4 - |BoundaryPrefix|];
        assert p[i] in piece;
      }
    }
  }

  /**
   * The delimiter lines are ASCII, so they occupy one byte per character of
   * the body.
   */
  lemma DelimitersAreAscii(randomText: string)
    requires forall i :: 0 <= i < |randomText| ==> IsBase36Char(randomText[i])
    ensures var param := BoundaryParameter(Boundary(randomText));
      |Encode("--" + param + Crlf)| == |param| + 4 &&
      |Encode(Crlf + "--" + param + "--")| == |param| + 6
  {
    BoundaryParameterValid(randomText);
    var param := BoundaryParameter(Boundary(randomText));
    assert IsAscii(param) by {
      forall i | 0 <= i < |param| ensures param[i] as int < 0x80 {
        assert IsBChar(param[i]);
      }
    }
    assert IsAscii("--") && IsAscii(Crlf);
    AsciiConcat("--", param);
    AsciiConcat("--" + param, Crlf);
    AsciiConcat(Crlf, "--");
    AsciiConcat(Crlf + "--", param);
    AsciiConcat(Crlf + "--" + param, "--");
    EncodeAscii("--" + param + Crlf);
    EncodeAscii(Crlf + "--" + param + "--");
  }

  lemma AsciiConcat(a: string, b: string)
    requires IsAscii(a) && IsAscii(b)
    ensures IsAscii(a + b)
  {
    forall i | 0 <= i < |a + b| ensures (a + b)[i] as int < 0x80 {
      if i >= |a| {
        assert (a + b)[i] == b[i - |a|];
      }
    }
  }
}
