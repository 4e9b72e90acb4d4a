/**
 * The pure parts of the "Move image under cursor" command: the embed name
 * taken from the cursor line by `/!\[\[(.+)\]\]/.exec(line)`, the source and
 * target paths, and the rename of one vault entry.
 *
 * The regular expression is not global and its `(.+)` is greedy: it matches
 * at the leftmost "![[" whose line segment (up to the next line terminator)
 * holds a "]]" at least one character further on, and the capture runs to
 * the LAST such "]]".
 */
module MoveImage {
  import opened Wrappers
  import opened Text
  import opened Bytes

  /** The first line terminator at or after `i`, or the end of `s`: how far `.+` can reach. */
  function RunEnd(s: string, i: nat): (e: nat)
    requires i <= |s|
    ensures i <= e <= |s|
    ensures forall j :: i <= j < e ==> !IsLineTerminator(s[j])
    ensures e < |s| ==> IsLineTerminator(s[e])
    decreases |s| - i
  {
    if i == |s| || IsLineTerminator(s[i]) then i else RunEnd(s, i + 1)
  }

  /** Backtracking from the right: the last "]]" that starts at `lo` or later and ends by `hi`. */
  function LastClose(s: string, lo: nat, hi: nat): (r: Option<nat>)
    requires hi <= |s|
    decreases hi
  {
    if hi < lo + 2 then None
    else if s[hi - 2] == ']' && s[hi - 1] == ']' then Some(hi - 2)
    else LastClose(s, lo, hi - 1)
  }

  /** `LastClose` finds the largest "]]" in range, and fails only when there is none. */
  lemma {:induction false} LastCloseSpec(s: string, lo: nat, hi: nat)
    requires hi <= |s|
    ensures LastClose(s, lo, hi).Some? ==>
      var k := LastClose(s, lo, hi).value;
      lo <= k && k + 2 <= hi && OccursAt(s, "]]", k) &&
      forall j :: k < j && j + 2 <= hi ==> !OccursAt(s, "]]", j)
    ensures LastClose(s, lo, hi).None? ==>
      forall j :: lo <= j && j + 2 <= hi ==> !OccursAt(s, "]]", j)
    decreases hi
  {
    if hi >= lo + 2 {
      PairAt(s, "]]", hi - 2);
      if !(s[hi - 2] == ']' && s[hi - 1] == ']') {
        LastCloseSpec(s, lo, hi - 1);
        PairAt(s, "]]", hi - 2);
      }
    }
    forall j | lo <= j && j + 2 <= hi ensures
      (LastClose(s, lo, hi).None? || LastClose(s, lo, hi).value < j) ==> !OccursAt(s, "]]", j)
    {
      PairAt(s, "]]", j);
    }
  }

  /** Where the pattern matches when tried at `p`: the index of the "]]" that ends the capture. */
  function EmbedAt(s: string, p: nat): Option<nat>
  {
    if OccursAt(s, "![[", p) then LastClose(s, p + 4, RunEnd(s, p + 3)) else None
  }

  /** `exec` tries each start from `p` on and takes the first that matches. */
  function FindEmbed(s: string, p: nat): (r: Option<(nat, nat)>)
    ensures r.Some? ==> p <= r.value.0 && r.value.0 + 4 <= r.value.1 && r.value.1 + 2 <= |s|
    decreases |s| - p
  {
    if p + 3 > |s| then None
    else
      match EmbedAt(s, p)
      case Some(k) =>
        LastCloseSpec(s, p + 4, RunEnd(s, p + 3));
        Some((p, k))
      case None => FindEmbed(s, p + 1)
  }

  /** `match[1]` of `/!\[\[(.+)\]\]/.exec(lineText)`, or `None` when there is no match. */
  function EmbedName(line: string): Option<string>
  {
    match FindEmbed(line, 0)
    case Some((p, k)) => Some(line[p + 3..k])
    case None => None
  }

  /** The line has no line terminator in it. */
  ghost predicate SingleLine(s: string)
  {
    forall j :: 0 <= j < |s| ==> !IsLineTerminator(s[j])
  }

  /**
   * The capture of a single line: `p` is the first "![[" of the line, and `k`
   * is the last "]]" of the line, at least one character after it.
   */
  ghost predicate GreedyEmbed(s: string, p: nat, k: nat)
  {
    OccursAt(s, "![[", p) && p + 4 <= k && OccursAt(s, "]]", k) &&
    (forall q :: 0 <= q < p ==> !OccursAt(s, "![[", q)) &&
    (forall j :: k < j ==> !OccursAt(s, "]]", j))
  }

  lemma {:induction false} FindEmbedSound(s: string, p0: nat)
    requires SingleLine(s)
    requires forall q :: 0 <= q < p0 ==> !OccursAt(s, "![[", q)
    requires FindEmbed(s, p0).Some?
    ensures GreedyEmbed(s, FindEmbed(s, p0).value.0, FindEmbed(s, p0).value.1)
    decreases |s| - p0
  {
    var (p, k) := FindEmbed(s, p0).value;
    if EmbedAt(s, p0).Some? {
      LastCloseSpec(s, p0 + 4, |s|);
      forall j | k < j ensures !OccursAt(s, "]]", j) {
        PairAt(s, "]]", j);
      }
    } else {
      if OccursAt(s, "![[", p0) {
        LastCloseSpec(s, p0 + 4, |s|);
        FindEmbedBounds(s, p0 + 1);
        assert false;
      }
      FindEmbedSound(s, p0 + 1);
    }
  }

  /** What a later match would prove about an earlier "![[" of the same line. */
  lemma FindEmbedBounds(s: string, p0: nat)
    requires FindEmbed(s, p0).Some?
    ensures var (p, k) := FindEmbed(s, p0).value; OccursAt(s, "]]", k)
    decreases |s| - p0
  {
    if EmbedAt(s, p0).Some? {
      LastCloseSpec(s, p0 + 4, RunEnd(s, p0 + 3));
    } else {
      FindEmbedBounds(s, p0 + 1);
    }
  }

  lemma {:induction false} FindEmbedComplete(s: string, p0: nat, p: nat, k: nat)
    requires SingleLine(s)
    requires p0 <= p && OccursAt(s, "![[", p) && p + 4 <= k && OccursAt(s, "]]", k)
    requires forall q :: p0 <= q < p ==> !OccursAt(s, "![[", q)
    requires forall j :: k < j ==> !OccursAt(s, "]]", j)
    ensures FindEmbed(s, p0) == Some((p, k))
    decreases p - p0
  {
    if p0 < p {
      FindEmbedComplete(s, p0 + 1, p, k);
    } else {
      LastCloseSpec(s, p + 4, |s|);
      var r := LastClose(s, p + 4, |s|);
      if r.None? || r.value != k {
        assert false;
      }
    }
  }

  /**
   * On a single line the name is exactly the text between the first "![[" and
   * the last "]]" after it, when there is at least one character between.
   */
  lemma EmbedNameSpec(line: string, name: string)
    requires SingleLine(line)
    ensures EmbedName(line) == Some(name) <==>
      exists p: nat, k: nat :: GreedyEmbed(line, p, k) && name == line[p + 3..k]
  {
    if EmbedName(line) == Some(name) {
      FindEmbedSound(line, 0);
    }
    if exists p: nat, k: nat :: GreedyEmbed(line, p, k) && name == line[p + 3..k] {
      var p: nat, k: nat :| GreedyEmbed(line, p, k) && name == line[p + 3..k];
      FindEmbedComplete(line, 0, p, k);
    }
  }

  /**
   * There is no name (and the command stops) exactly when the line has no
   * "![[" followed, one character or more further on, by "]]".
   */
  lemma {:induction false} NoEmbedSpec(s: string, p0: nat)
    requires SingleLine(s)
    ensures FindEmbed(s, p0).None? <==>
      forall p, k :: p0 <= p && OccursAt(s, "![[", p) && p + 4 <= k ==> !OccursAt(s, "]]", k)
    decreases |s| - p0
  {
    if p0 + 3 <= |s| {
      NoEmbedSpec(s, p0 + 1);
      LastCloseSpec(s, p0 + 4, |s|);
      forall k | OccursAt(s, "]]", k) ensures k + 2 <= |s| { }
    }
  }

  /** Every name found is non-empty, single-line, and framed by "![[" and "]]" in the line. */
  lemma EmbedNameFramed(line: string)
    requires EmbedName(line).Some?
    ensures var name := EmbedName(line).value;
      name != [] && SingleLine(name) &&
      exists p :: OccursAt(line, "![[" + name + "]]", p)
  {
    var (p, k) := FindEmbed(line, 0).value;
    var name := line[p + 3..k];
    FindEmbedFramed(line, 0);
    assert line[p..k + 2] == line[p..p + 3] + name + line[k..k + 2];
    assert OccursAt(line, "![[" + name + "]]", p);
  }

  lemma {:induction false} FindEmbedFramed(s: string, p0: nat)
    requires FindEmbed(s, p0).Some?
    ensures var (p, k) := FindEmbed(s, p0).value;
      OccursAt(s, "![[", p) && OccursAt(s, "]]", k) && SingleLine(s[p + 3..k])
    decreases |s| - p0
  {
    if EmbedAt(s, p0).Some? {
      LastCloseSpec(s, p0 + 4, RunEnd(s, p0 + 3));
    } else {
      FindEmbedFramed(s, p0 + 1);
    }
  }

  // ---------------------------------------------------------------------------
  // Paths and the rename

  const SourceFolder := "Private/Screenshots"
  const TargetFolder := "Attachments"

  /** `Private/Screenshots/${fileName}` */
  function SourcePath(name: string): string
  {
    SourceFolder + "/" + name
  }

  /** `TFile.name`: the last `/`-separated segment of a path. */
  function BaseName(path: string): (n: string)
    ensures '/' !in n
    ensures |n| <= |path| && path[|path| - |n|..] == n
    ensures |n| < |path| ==> path[|path| - |n| - 1] == '/'
  {
    var parts := Split(path, '/');
    LastSegment(parts, '/');
    parts[|parts| - 1]
  }

  lemma {:induction false} LastSegment(parts: seq<string>, sep: char)
    requires |parts| >= 1
    ensures var s := Join(parts, sep); var n := parts[|parts| - 1];
      |n| <= |s| && s[|s| - |n|..] == n && (|n| < |s| ==> s[|s| - |n| - 1] == sep)
    decreases |parts|
  {
    if |parts| > 1 {
      LastSegment(parts[1..], sep);
      var rest := Join(parts[1..], sep);
      assert Join(parts, sep) == (parts[0] + [sep]) + rest;
    }
  }

  /** `${newParentFolderName}/${sourceFile.name}` */
  function TargetPath(source: string): string
  {
    TargetFolder + "/" + BaseName(source)
  }

  /** A vault file; `name` is the last segment of its path. */
  datatype VaultFile = VaultFile(name: string, contents: seq<byte>)

  /** Every file's `name` agrees with the path it is stored under. */
  ghost predicate WellNamed(vault: map<string, VaultFile>)
  {
    forall path :: path in vault ==> vault[path].name == BaseName(path)
  }

  /**
   * `fileManager.renameFile(file, to)`: the file leaves `from` for `to`, named
   * after its new last segment. A rename onto an existing path is refused and
   * changes nothing.
   */
  function RenameFile(vault: map<string, VaultFile>, from: string, to: string): (v: map<string, VaultFile>)
    requires from in vault
    ensures to in vault ==> v == vault
    ensures to !in vault ==>
      v.Keys == vault.Keys - {from} + {to} &&
      v[to] == vault[from].(name := BaseName(to)) &&
      forall path :: path in vault && path != from ==> v[path] == vault[path]
  {
    if to in vault then vault
    else (vault - {from})[to := vault[from].(name := BaseName(to))]
  }

  /** Renaming keeps every file named after its path. */
  lemma RenameKeepsNames(vault: map<string, VaultFile>, from: string, to: string)
    requires from in vault && WellNamed(vault)
    ensures WellNamed(RenameFile(vault, from, to))
  {
  }

  /**
   * The file a line points at, and where it goes: `None` when the line has no
   * embed or no file exists at the source path.
   */
  function PlannedMove(vault: map<string, VaultFile>, line: string): (r: Option<(string, string)>)
    ensures r.Some? <==> EmbedName(line).Some? && SourcePath(EmbedName(line).value) in vault
    ensures r.Some? ==> r.value.0 == SourcePath(EmbedName(line).value)
    ensures r.Some? ==> r.value.1 == TargetFolder + "/" + vault[r.value.0].name
  {
    match EmbedName(line)
    case None => None
    case Some(name) =>
      var source := SourcePath(name);
      if source !in vault then None
      else Some((source, TargetFolder + "/" + vault[source].name))
  }

  /**
   * In a vault whose files are named after their paths, the target is
   * "Attachments/" followed by the last segment of the source path.
   */
  lemma PlannedTarget(vault: map<string, VaultFile>, line: string)
    requires WellNamed(vault) && PlannedMove(vault, line).Some?
    ensures PlannedMove(vault, line).value.1 == TargetPath(PlannedMove(vault, line).value.0)
  {
  }

  /**
   * A planned move never leaves the file where it is: the source lies under
   * "Private/Screenshots" and the target under "Attachments".
   */
  lemma MoveChangesPath(vault: map<string, VaultFile>, line: string)
    requires PlannedMove(vault, line).Some?
    ensures PlannedMove(vault, line).value.0 != PlannedMove(vault, line).value.1
  {
    var (s, t) := PlannedMove(vault, line).value;
    assert s[0] == 'P' && t[0] == 'A';
  }
}
