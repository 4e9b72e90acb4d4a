/**
 * The wiki-link rewrite that `publishPost` applies to the note body before
 * rendering: `content.replace(/\[\[(.*?)\]\]/g, callback)`.
 *
 * The global replace is a single left-to-right scan. At each position the
 * pattern either matches (two opening brackets, then the SHORTEST run of
 * characters other than line terminators that is followed by two closing
 * brackets) or the character is copied and the scan moves one step on. After
 * a match the scan resumes behind the closing brackets, so the replacement
 * text is never scanned again.
 */
module WikiLinks {
  import opened Wrappers
  import opened Text

  /**
   * `c` is where the lazy `(.*?)` begun at `k` stops: the first index at or
   * after `k` where "]]" starts, with no line terminator before it.
   */
  ghost predicate ShortestClose(s: string, k: nat, c: nat)
  {
    k <= c && OccursAt(s, "]]", c) &&
    forall j :: k <= j < c ==> !IsLineTerminator(s[j]) && !OccursAt(s, "]]", j)
  }

  /**
   * The lazy search: try "]]" at `k`; otherwise let `.` consume `s[k]` unless
   * it is a line terminator, and try again one step on.
   */
  function CloseFrom(s: string, k: nat): (r: Option<nat>)
    ensures r.Some? ==> k <= r.value && r.value + 2 <= |s|
    decreases |s| - k
  {
    if k + 2 <= |s| && s[k] == ']' && s[k + 1] == ']' then Some(k)
    else if k < |s| && !IsLineTerminator(s[k]) then CloseFrom(s, k + 1)
    else None
  }

  /** The lazy search finds exactly the shortest close, and fails exactly when there is none. */
  lemma {:induction false} CloseFromIff(s: string, k: nat, c: nat)
    ensures CloseFrom(s, k) == Some(c) <==> ShortestClose(s, k, c)
    decreases |s| - k
  {
    PairAt(s, "]]", k);
    if k < |s| && !IsLineTerminator(s[k]) && !(k + 2 <= |s| && s[k] == ']' && s[k + 1] == ']') {
      CloseFromIff(s, k + 1, c);
    }
  }

  /** Where the pattern matches at the start of `s`: the index of its closing "]]". */
  function MatchAt(s: string): (r: Option<nat>)
    ensures r.Some? ==> 2 <= r.value && r.value + 2 <= |s|
  {
    if OccursAt(s, "[[", 0) then CloseFrom(s, 2) else None
  }

  /**
   * `inner` can be the capture of a match: no line terminator in it, and no
   * "]]" starting inside it (so it does not end in ']' either).
   */
  ghost predicate IsLinkInner(inner: string)
  {
    forall j :: 0 <= j < |inner| ==>
      !IsLineTerminator(inner[j]) && !OccursAt(inner + "]", "]]", j)
  }

  /** A match at the start of `s` captures a link inner and consumes it with its brackets. */
  lemma MatchAtShape(s: string)
    requires MatchAt(s).Some?
    ensures var c := MatchAt(s).value;
      s == "[[" + s[2..c] + "]]" + s[c + 2..] && IsLinkInner(s[2..c])
  {
    var c := MatchAt(s).value;
    CloseFromIff(s, 2, c);
    assert s[c..c + 2] == "]]";
    assert s[..2] == "[[";
    assert s == s[..2] + s[2..c] + s[c..c + 2] + s[c + 2..];
    ShortestCloseInner(s, c);
  }

  /** What lies between "[[" and the shortest close is a link inner. */
  lemma ShortestCloseInner(s: string, c: nat)
    requires ShortestClose(s, 2, c)
    ensures IsLinkInner(s[2..c])
  {
    var inner := s[2..c];
    var t := inner + "]";
    PairAt(s, "]]", c);
    forall j | 0 <= j < |inner|
      ensures !IsLineTerminator(inner[j]) && !OccursAt(t, "]]", j)
    {
      assert inner[j] == s[2 + j];
      if j + 1 < |inner| {
        assert t[j + 1] == s[3 + j];
      } else {
        assert t[j + 1] == ']' == s[3 + j];
      }
      assert t[j..j + 2] == s[2 + j..4 + j];
    }
  }

  /** `"[[" + inner + "]]"` is matched at the front, whatever follows. */
  lemma LinkMatch(inner: string, rest: string)
    requires IsLinkInner(inner)
    ensures MatchAt("[[" + inner + "]]" + rest) == Some(|inner| + 2)
  {
    var s := "[[" + inner + "]]" + rest;
    var c := |inner| + 2;
    assert s[0..2] == "[[";
    assert s[c..c + 2] == "]]";
    forall j | 2 <= j < c
      ensures !IsLineTerminator(s[j]) && !OccursAt(s, "]]", j)
    {
      assert s[j] == inner[j - 2];
      assert !OccursAt(inner + "]", "]]", j - 2);
      assert s[j..j + 2] == (inner + "]")[j - 2..j];
    }
    assert ShortestClose(s, 2, c);
    CloseFromIff(s, 2, c);
  }

  /** One step of the scan: a character copied as it is, or one matched link. */
  datatype Piece = Char(c: char) | Link(inner: string)

  /** The global scan, leftmost match first, resuming after each match. */
  function Scan(s: string): (pieces: seq<Piece>)
    decreases |s|
  {
    if s == [] then []
    else
      match MatchAt(s)
      case Some(c) => [Link(s[2..c])] + Scan(s[c + 2..])
      case None => [Char(s[0])] + Scan(s[1..])
  }

  /** The text a sequence of pieces was scanned from. */
  function Source(pieces: seq<Piece>): string
    decreases |pieces|
  {
    if pieces == [] then []
    else
      match pieces[0]
      case Char(c) => [c] + Source(pieces[1..])
      case Link(inner) => "[[" + inner + "]]" + Source(pieces[1..])
  }

  /**
   * The pieces are what the scan takes: a copied character stands where no
   * match begins, and every link is a shortest single-line match.
   */
  ghost predicate WellScanned(pieces: seq<Piece>)
    decreases |pieces|
  {
    pieces == [] ||
    ((match pieces[0]
      case Char(_) => MatchAt(Source(pieces)) == None
      case Link(inner) => IsLinkInner(inner))
     && WellScanned(pieces[1..]))
  }

  /** The scan loses nothing: text outside the links is kept and each link is its matched text. */
  lemma {:induction false} ScanSource(s: string)
    ensures Source(Scan(s)) == s
    decreases |s|
  {
    if s != [] {
      match MatchAt(s)
      case Some(c) =>
        MatchAtShape(s);
        ScanSource(s[c + 2..]);
        assert Scan(s)[1..] == Scan(s[c + 2..]);
      case None =>
        ScanSource(s[1..]);
        assert Scan(s)[1..] == Scan(s[1..]);
        assert s == [s[0]] + s[1..];
    }
  }

  /** The scan takes matches leftmost and shortest. */
  lemma {:induction false} ScanWellScanned(s: string)
    ensures WellScanned(Scan(s))
    decreases |s|
  {
    if s != [] {
      ScanSource(s);
      match MatchAt(s)
      case Some(c) =>
        MatchAtShape(s);
        ScanWellScanned(s[c + 2..]);
        assert Scan(s)[1..] == Scan(s[c + 2..]);
      case None =>
        ScanWellScanned(s[1..]);
        assert Scan(s)[1..] == Scan(s[1..]);
    }
  }

  /** Only the scan's own pieces are lossless and leftmost-shortest: they are unique. */
  lemma {:induction false} ScanUnique(pieces: seq<Piece>)
    requires WellScanned(pieces)
    ensures Scan(Source(pieces)) == pieces
    decreases |pieces|
  {
    if pieces != [] {
      var rest := pieces[1..];
      ScanUnique(rest);
      match pieces[0]
      case Char(ch) =>
        assert Source(pieces) == [ch] + Source(rest);
        ScanCharFront(ch, Source(rest));
        assert pieces == [Char(ch)] + rest;
      case Link(inner) =>
        assert Source(pieces) == "[[" + inner + "]]" + Source(rest);
        ScanLinkFront(inner, Source(rest));
        assert pieces == [Link(inner)] + rest;
    }
  }

  /** A character where no match begins is scanned as one piece. */
  lemma ScanCharFront(ch: char, rest: string)
    requires MatchAt([ch] + rest) == None
    ensures Scan([ch] + rest) == [Char(ch)] + Scan(rest)
  {
    assert ([ch] + rest)[1..] == rest;
  }

  /** A link at the front is scanned as one piece, and the scan goes on behind it. */
  lemma ScanLinkFront(inner: string, rest: string)
    requires IsLinkInner(inner)
    ensures Scan("[[" + inner + "]]" + rest) == [Link(inner)] + Scan(rest)
  {
    var s := "[[" + inner + "]]" + rest;
    LinkMatch(inner, rest);
    var c := |inner| + 2;
    assert s[2..c] == inner;
    assert s[c + 2..] == rest;
  }

  /** Markdown image syntax emitted for an inner text that mentions ".png". */
  function ImageMarkdown(inner: string, base: string): string
  {
    "![" + inner + "](" + base + "/" + inner + ")"
  }

  /** The document id and the link text taken from a non-image inner text. */
  datatype Anchor = Anchor(id: string, text: string)

  /**
   * `const [link, text] = p1.split("|"); const [id, slug] = link.split("#");`
   * and `text || slug || link`; a missing array element is `undefined`, which,
   * like the empty string, is falsy.
   */
  function ParseLink(inner: string): (a: Anchor)
    ensures '|' !in a.id && '#' !in a.id
    ensures |a.id| <= |inner| && a.id == inner[..|a.id|]
    ensures '|' !in a.text
  {
    var bar := Split(inner, '|');
    var link := bar[0];
    var text := if |bar| > 1 then bar[1] else "";
    var hash := Split(link, '#');
    var slug := if |hash| > 1 then hash[1] else "";
    IdIsPrefix(bar, '|');
    IdIsPrefix(hash, '#');
    Anchor(hash[0], if text != "" then text else if slug != "" then slug else link)
  }

  /** The first segment of joined segments is a prefix of the joined text. */
  lemma IdIsPrefix(parts: seq<string>, sep: char)
    requires |parts| >= 1
    ensures |parts[0]| <= |Join(parts, sep)| && parts[0] == Join(parts, sep)[..|parts[0]|]
  {
    if |parts| > 1 {
      assert Join(parts, sep) == parts[0] + ([sep] + Join(parts[1..], sep));
    }
  }

  /** `<a href="BASE_URL/id">text</a>` */
  function AnchorHtml(base: string, a: Anchor): string
  {
    "<a href=\"" + base + "/" + a.id + "\">" + a.text + "</a>"
  }

  /** The callback's result for the capture `p1` of one match. */
  function Replacement(inner: string, base: string): string
  {
    if Includes(inner, ".png") then ImageMarkdown(inner, base)
    else AnchorHtml(base, ParseLink(inner))
  }

  /** What one piece becomes in the output. */
  function Emit(p: Piece, base: string): string
  {
    match p
    case Char(c) => [c]
    case Link(inner) => Replacement(inner, base)
  }

  function EmitAll(pieces: seq<Piece>, base: string): string
    decreases |pieces|
  {
    if pieces == [] then [] else Emit(pieces[0], base) + EmitAll(pieces[1..], base)
  }

  /** `data.content.replace(/\[\[(.*?)\]\]/g, callback)` with `BASE_URL` = `base`. */
  function RewriteLinks(content: string, base: string): string
  {
    EmitAll(Scan(content), base)
  }

  /** Text without "[[" comes out unchanged. */
  lemma {:induction false} RewriteWithoutLinks(s: string, base: string)
    requires forall i :: !OccursAt(s, "[[", i)
    ensures RewriteLinks(s, base) == s
    decreases |s|
  {
    if s != [] {
      assert !OccursAt(s, "[[", 0);
      forall i ensures !OccursAt(s[1..], "[[", i) {
        if OccursAt(s[1..], "[[", i) {
          assert s[1..][i..i + 2] == s[i + 1..i + 3];
          assert OccursAt(s, "[[", i + 1);
        }
      }
      RewriteWithoutLinks(s[1..], base);
    }
  }

  /**
   * A link at the front is replaced and the scan resumes after its "]]" in the
   * original text: the replacement is never rescanned.
   */
  lemma LinkThenRest(inner: string, rest: string, base: string)
    requires IsLinkInner(inner)
    ensures RewriteLinks("[[" + inner + "]]" + rest, base)
         == Replacement(inner, base) + RewriteLinks(rest, base)
  {
    var s := "[[" + inner + "]]" + rest;
    LinkMatch(inner, rest);
    assert s[2..|inner| + 2] == inner;
    assert s[|inner| + 4..] == rest;
  }

  /** A character where no match begins is copied, and the scan goes on from the next one. */
  lemma CharThenRest(ch: char, rest: string, base: string)
    requires MatchAt([ch] + rest) == None
    ensures RewriteLinks([ch] + rest, base) == [ch] + RewriteLinks(rest, base)
  {
    assert ([ch] + rest)[1..] == rest;
  }

  /** An inner text containing ".png" anywhere, even before a '|' or '#', becomes a Markdown image. */
  lemma PngBecomesImage(inner: string, base: string, i: nat)
    requires OccursAt(inner, ".png", i)
    ensures Replacement(inner, base) == "![" + inner + "](" + base + "/" + inner + ")"
  {
    IncludesIff(inner, ".png");
  }

  /** Inner text without ".png" becomes an anchor whose href and text come from its parts. */
  lemma AnchorFromParts(bars: seq<string>, hashes: seq<string>, base: string)
    requires |bars| >= 1 && |hashes| >= 1
    requires forall i :: 0 <= i < |bars| ==> '|' !in bars[i]
    requires forall i :: 0 <= i < |hashes| ==> '#' !in hashes[i]
    requires Join(hashes, '#') == bars[0]
    requires forall i :: !OccursAt(Join(bars, '|'), ".png", i)
    ensures Replacement(Join(bars, '|'), base)
         == "<a href=\"" + base + "/" + hashes[0] + "\">"
            + (if |bars| > 1 && bars[1] != "" then bars[1]
               else if |hashes| > 1 && hashes[1] != "" then hashes[1]
               else bars[0])
            + "</a>"
  {
    IncludesIff(Join(bars, '|'), ".png");
    SplitJoin(bars, '|');
    SplitJoin(hashes, '#');
  }

  /** A '!' in front of a link is copied, and the link after it is replaced. */
  lemma BangThenLink(name: string, base: string)
    requires IsLinkInner(name)
    ensures RewriteLinks(['!'] + ("[[" + name + "]]"), base) == ['!'] + Replacement(name, base)
  {
    var link := "[[" + name + "]]";
    assert MatchAt(['!'] + link) == None by {
      PairAt(['!'] + link, "[[", 0);
    }
    CharThenRest('!', link, base);
    assert link + [] == link;
    LinkThenRest(name, [], base);
  }

  /** `![[name.png]]`: the '!' is outside the match and is kept in front of the image. */
  lemma ImageEmbedKeepsBang(name: string, base: string, i: nat)
    requires IsLinkInner(name) && OccursAt(name, ".png", i)
    ensures RewriteLinks("![[" + name + "]]", base)
         == "!![" + name + "](" + base + "/" + name + ")"
  {
    BangThenLink(name, base);
    PngBecomesImage(name, base, i);
    BangInFront(name, base);
  }

  /** The embed text is a '!' before the link, and the result a '!' before the image. */
  lemma BangInFront(name: string, base: string)
    ensures "![[" + name + "]]" == ['!'] + ("[[" + name + "]]")
    ensures ['!'] + ImageMarkdown(name, base) == "!![" + name + "](" + base + "/" + name + ")"
  {
    assert "![[" == ['!'] + "[[";
    assert "!![" == ['!'] + "![";
  }

  /** `[[]]` becomes a link to the bare base URL with empty text. */
  lemma EmptyLink(base: string)
    ensures RewriteLinks("[[]]", base) == "<a href=\"" + base + "/\"></a>"
  {
    assert IsLinkInner([]);
    assert "[[]]" == "[[" + [] + "]]" + [];
    LinkThenRest([], [], base);
    assert !Includes([], ".png");
    AnchorFromParts([[]], [[]], base);
  }
}
