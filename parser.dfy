/** The parents-section parser of `parse_md_files`: two regular-expression
    searches and an alias split, written out as total string functions.

    - `re.search(r'# Родители\n(.*?)(?=\n#|\Z)', content, re.DOTALL)`
    - `re.search(r'- Мать:\s*\[\[(.*?)\]\]', block)` and the same for `- Отец:`
    - `m.group(1).split('|')[0].strip()`
*/
module ParentsParser {
  import opened Common

  /** The literal the section search starts from. As a plain substring it is
      also found inside `## Родители\n`. */
  const Header: string := "# Родители\n"
  /** The lookahead that ends the section: a line break followed by `#`. */
  const SectionEnd: string := "\n#"
  const MotherLabel: string := "- Мать:"
  const FatherLabel: string := "- Отец:"
  const Open: string := "[["
  const Close: string := "]]"

  /** What the parser yields for one note: the raw parent ids, or `None`. */
  datatype Parents = Parents(mother: Option<string>, father: Option<string>)

  // ---------------------------------------------------------------------
  // Substrings

  predicate StartsAt(s: string, pat: string, i: nat)
  {
    i + |pat| <= |s| && s[i..i + |pat|] == pat
  }

  ghost predicate Occurs(s: string, pat: string)
  {
    exists i: nat :: StartsAt(s, pat, i)
  }

  /** `s` appears somewhere inside `t`. */
  ghost predicate Infix(s: string, t: string)
  {
    exists i: nat, j: nat :: i <= j <= |t| && t[i..j] == s
  }

  /** The leftmost occurrence of `pat` at or after `from`. */
  function Find(s: string, pat: string, from: nat): (r: Option<nat>)
    requires from <= |s|
    ensures r.Some? ==> from <= r.value && StartsAt(s, pat, r.value)
    ensures forall j: nat :: from <= j && (r.None? || j < r.value) ==> !StartsAt(s, pat, j)
    decreases |s| - from
  {
    if StartsAt(s, pat, from) then Some(from)
    else if from == |s| then None
    else Find(s, pat, from + 1)
  }

  lemma StartsAtSlice(s: string, pat: string, lo: nat, hi: nat, j: nat)
    requires lo <= hi <= |s|
    requires StartsAt(s[lo..hi], pat, j)
    ensures StartsAt(s, pat, lo + j) && lo + j + |pat| <= hi
  {
    var t := s[lo..hi];
    assert j + |pat| <= |t| && t[j..j + |pat|] == pat;
    forall k | 0 <= k < |pat|
      ensures s[lo + j + k] == pat[k]
    {
      assert t[j..j + |pat|][k] == t[j + k] == s[lo + j + k];
    }
    assert s[lo + j..lo + j + |pat|] == pat;
  }

  // ---------------------------------------------------------------------
  // The section

  /** Group 1 of the section search: the text after the first header, up to
      the first line break followed by `#`, or to the end of the text. */
  function Section(content: string): (r: Option<string>)
    ensures r.Some? <==> Occurs(content, Header)
  {
    match Find(content, Header, 0)
    case None => None
    case Some(h) =>
      var start := h + |Header|;
      match Find(content, SectionEnd, start)
      case None => Some(content[start..])
      case Some(e) => Some(content[start..e])
  }

  /** The section starts right after the leftmost header, ends where the first
      `\n#` after it begins (or at the end of the text), and so never holds a
      `\n#` itself. */
  lemma SectionBounds(content: string)
    requires Section(content).Some?
    ensures var h := Find(content, Header, 0).value;
            var sec := Section(content).value;
            var stop := h + |Header| + |sec|;
            stop <= |content| && content[h + |Header|..stop] == sec &&
            (stop == |content| || StartsAt(content, SectionEnd, stop)) &&
            !Occurs(sec, SectionEnd)
  {
    var h := Find(content, Header, 0).value;
    var start := h + |Header|;
    var sec := Section(content).value;
    var stop := match Find(content, SectionEnd, start) case None => |content| case Some(e) => e;
    assert sec == content[start..stop];
    forall j: nat | StartsAt(sec, SectionEnd, j)
      ensures false
    {
      StartsAtSlice(content, SectionEnd, start, stop, j);
    }
  }

  // ---------------------------------------------------------------------
  // Whitespace: the characters for which Python's `str.isspace` holds, which
  // are also what `\s` matches in a `str` pattern and what `str.strip` removes.

  predicate IsSpace(c: char)
  {
    ('\t' <= c <= '\r') || ('\U{1C}' <= c <= '\U{20}') || c == '\U{85}' || c == '\U{A0}' ||
    c == '\U{1680}' || ('\U{2000}' <= c <= '\U{200A}') || c == '\U{2028}' || c == '\U{2029}' ||
    c == '\U{202F}' || c == '\U{205F}' || c == '\U{3000}'
  }

  /** Every character of `s[lo..hi]` is whitespace. */
  predicate SpaceBetween(s: string, lo: nat, hi: nat)
    requires lo <= hi <= |s|
  {
    forall j :: lo <= j < hi ==> IsSpace(s[j])
  }

  predicate NoBreak(s: string)
  {
    '\n' !in s
  }

  /** Where the greedy `\s*` starting at `k` stops. */
  function SkipSpace(s: string, k: nat): (r: nat)
    requires k <= |s|
    ensures k <= r <= |s| && SpaceBetween(s, k, r) && (r < |s| ==> !IsSpace(s[r]))
    decreases |s| - k
  {
    if k < |s| && IsSpace(s[k]) then SkipSpace(s, k + 1) else k
  }

  /** Where the whitespace that ends at `e` begins, going back no further than `lo`. */
  function SpaceBack(s: string, lo: nat, e: nat): (b: nat)
    requires lo <= e <= |s|
    ensures lo <= b <= e && SpaceBetween(s, b, e) && (lo < b ==> !IsSpace(s[b - 1]))
    decreases e - lo
  {
    if lo < e && IsSpace(s[e - 1]) then SpaceBack(s, lo, e - 1) else e
  }

  /** `]]` (the text of `Close`) starts at `m`. */
  predicate ClosesAt(s: string, m: nat)
  {
    m + 1 < |s| && s[m] == ']' && s[m + 1] == ']'
  }

  /** `[[` (the text of `Open`) starts at `m`. */
  predicate OpensAt(s: string, m: nat)
  {
    m + 1 < |s| && s[m] == '[' && s[m + 1] == '['
  }

  /** No line break in `s[lo..hi]`. */
  predicate BreakFree(s: string, lo: nat, hi: nat)
    requires lo <= hi <= |s|
  {
    forall j :: lo <= j < hi ==> s[j] != '\n'
  }

  /** Where the lazy `(.*?)\]\]` that starts at `k` stops: the first `]]` at
      or after `k` that no line break precedes. */
  function CloseFrom(s: string, k: nat): (r: Option<nat>)
    requires k <= |s|
    ensures r.Some? ==> k <= r.value && ClosesAt(s, r.value) && BreakFree(s, k, r.value)
    ensures r.Some? ==> forall m :: k <= m < r.value ==> !ClosesAt(s, m)
    ensures r.None? ==> forall m: nat :: k <= m && ClosesAt(s, m) ==> !BreakFree(s, k, m)
    decreases |s| - k
  {
    if ClosesAt(s, k) then Some(k)
    else if k == |s| || s[k] == '\n' then None
    else CloseFrom(s, k + 1)
  }

  // ---------------------------------------------------------------------
  // One link: `tag \s* [[ capture ]]`

  /** The regular expression matches at `i` with `n` whitespace characters
      after the tag and the given capture: the capture has no line break
      and is the shortest one followed by `]]`. */
  ghost predicate LinkShape(s: string, tag: string, i: nat, n: nat, cap: string)
  {
    var openAt := i + |tag| + n;
    var closeAt := openAt + 2 + |cap|;
    StartsAt(s, tag, i) && closeAt + 2 <= |s| &&
    SpaceBetween(s, i + |tag|, openAt) && OpensAt(s, openAt) &&
    s[openAt + 2..closeAt] == cap && ClosesAt(s, closeAt) &&
    BreakFree(s, openAt + 2, closeAt) && (forall m :: openAt + 2 <= m < closeAt ==> !ClosesAt(s, m))
  }

  ghost predicate IsLink(s: string, tag: string, i: nat, cap: string)
  {
    exists n: nat :: LinkShape(s, tag, i, n, cap)
  }

  /** The regular expression tried at position `i` only. Since `[` is not
      whitespace, backtracking into `\s*` never helps, so the attempt is
      deterministic. */
  function MatchAt(s: string, tag: string, i: nat): Option<string>
  {
    if !StartsAt(s, tag, i) then None
    else
      var openAt := SkipSpace(s, i + |tag|);
      if !OpensAt(s, openAt) then None
      else
        match CloseFrom(s, openAt + 2)
        case None => None
        case Some(closeAt) => Some(s[openAt + 2..closeAt])
  }

  /** Whatever `MatchAt` captures is a match of the regular expression. */
  lemma MatchAtSound(s: string, tag: string, i: nat)
    requires MatchAt(s, tag, i).Some?
    ensures IsLink(s, tag, i, MatchAt(s, tag, i).value)
  {
    var openAt := SkipSpace(s, i + |tag|);
    var closeAt := CloseFrom(s, openAt + 2).value;
    assert LinkShape(s, tag, i, openAt - i - |tag|, s[openAt + 2..closeAt]);
  }

  lemma {:induction false} SkipSpaceStops(s: string, k: nat, e: nat)
    requires k <= e <= |s| && SpaceBetween(s, k, e) && (e < |s| ==> !IsSpace(s[e]))
    ensures SkipSpace(s, k) == e
    decreases e - k
  {
    if k < e {
      SkipSpaceStops(s, k + 1, e);
    }
  }

  lemma {:induction false} CloseFromStops(s: string, k: nat, e: nat)
    requires k <= e && ClosesAt(s, e) && BreakFree(s, k, e)
    requires forall m :: k <= m < e ==> !ClosesAt(s, m)
    ensures CloseFrom(s, k) == Some(e)
    decreases e - k
  {
    if k < e {
      CloseFromStops(s, k + 1, e);
    }
  }

  /** Every match of the regular expression at `i` is the one `MatchAt`
      finds; with `MatchAtSound`, the two agree exactly. */
  lemma MatchAtComplete(s: string, tag: string, i: nat, cap: string)
    requires IsLink(s, tag, i, cap)
    ensures MatchAt(s, tag, i) == Some(cap)
  {
    var n: nat :| LinkShape(s, tag, i, n, cap);
    var openAt := i + |tag| + n;
    SkipSpaceStops(s, i + |tag|, openAt);
    CloseFromStops(s, openAt + 2, openAt + 2 + |cap|);
  }

  /** The leftmost position at or after `from` where the regular expression matches. */
  function FirstLinkAt(s: string, tag: string, from: nat): (r: Option<nat>)
    requires from <= |s|
    ensures r.Some? ==> from <= r.value <= |s| && MatchAt(s, tag, r.value).Some?
    ensures forall j: nat :: from <= j && (r.None? || j < r.value) ==> MatchAt(s, tag, j).None?
    decreases |s| - from
  {
    if MatchAt(s, tag, from).Some? then Some(from)
    else if from == |s| then None
    else FirstLinkAt(s, tag, from + 1)
  }

  /** A match at `q` with none before it, back to `from`, is the first one. */
  lemma {:induction false} FirstLinkAtIs(s: string, tag: string, from: nat, q: nat)
    requires from <= q <= |s| && MatchAt(s, tag, q).Some?
    requires forall j: nat :: from <= j < q ==> MatchAt(s, tag, j).None?
    ensures FirstLinkAt(s, tag, from) == Some(q)
    decreases q - from
  {
    if from < q {
      FirstLinkAtIs(s, tag, from + 1, q);
    }
  }

  /** Group 1 of `re.search(tag + r'\s*\[\[(.*?)\]\]', block)`. */
  function FirstLink(block: string, tag: string): Option<string>
  {
    match FirstLinkAt(block, tag, 0)
    case None => None
    case Some(p) => MatchAt(block, tag, p)
  }

  // ---------------------------------------------------------------------
  // Alias and trimming

  /** `s.split('|')[0]`: the text before the first `|`, or all of `s`. */
  function AliasHead(s: string): (r: string)
    ensures '|' !in r && r <= s && (|r| < |s| ==> s[|r|] == '|')
  {
    if s == [] || s[0] == '|' then [] else [s[0]] + AliasHead(s[1..])
  }

  predicate Trimmed(s: string)
  {
    s == [] || (!IsSpace(s[0]) && !IsSpace(s[|s| - 1]))
  }

  /** `s.strip()`: removes whitespace at both ends and nothing else. */
  function Strip(s: string): (r: string)
    ensures Trimmed(r)
    ensures var i := SkipSpace(s, 0);
            i + |r| <= |s| && s[i..i + |r|] == r && SpaceBetween(s, 0, i) && SpaceBetween(s, i + |r|, |s|)
    ensures Trimmed(s) ==> r == s
  {
    var lo := SkipSpace(s, 0);
    var hi := SpaceBack(s, lo, |s|);
    s[lo..hi]
  }

  // ---------------------------------------------------------------------
  // The parser

  /** What survives of a parent id: no `|`, no line break, no surrounding whitespace. */
  predicate WellFormedId(id: string)
  {
    '|' !in id && NoBreak(id) && Trimmed(id)
  }

  /** The capture of a match never spans a line break. */
  lemma FirstLinkNoBreak(block: string, tag: string)
    requires FirstLink(block, tag).Some?
    ensures NoBreak(FirstLink(block, tag).value)
  {
    var p := FirstLinkAt(block, tag, 0).value;
    var cap := FirstLink(block, tag).value;
    MatchAtSound(block, tag, p);
    var n: nat :| LinkShape(block, tag, p, n, cap);
    var openAt := p + |tag| + n;
    forall j | 0 <= j < |cap| ensures cap[j] != '\n' {
      assert cap[j] == block[openAt + 2 + j];
    }
  }

  /** Cutting a capture at `|` and stripping it leaves a well-formed id
      that is a piece of the capture. */
  lemma CleanIdFacts(cap: string)
    requires NoBreak(cap)
    ensures var id := Strip(AliasHead(cap));
            WellFormedId(id) && Infix(id, cap)
  {
    var head := AliasHead(cap);
    var id := Strip(head);
    var i := SkipSpace(head, 0);
    assert head[i..i + |id|] == id;
    assert cap[i..i + |id|] == id by {
      assert head == cap[..|head|];
    }
    SliceChars(id, cap, i);
    SliceChars(id, head, i);
  }

  /** A slice of `t` occurs in `t` and holds only characters of `t`. */
  lemma SliceChars(s: string, t: string, i: nat)
    requires i + |s| <= |t| && t[i..i + |s|] == s
    ensures Infix(s, t) && forall c :: c in s ==> c in t
  {
    forall c | c in s ensures c in t {
      var k :| 0 <= k < |s| && s[k] == c;
      assert t[i + k] == c;
    }
  }

  /** One parent id: the first link after `tag`, cut at its first `|`
      and stripped; `None` when there is no such link. */
  function ParentId(block: string, tag: string): (r: Option<string>)
    ensures r.Some? <==> FirstLink(block, tag).Some?
    ensures r.Some? ==> WellFormedId(r.value) && Infix(r.value, FirstLink(block, tag).value)
    ensures r.Some? ==> r.value == Strip(AliasHead(FirstLink(block, tag).value))
  {
    match FirstLink(block, tag)
    case None => None
    case Some(cap) =>
      FirstLinkNoBreak(block, tag);
      CleanIdFacts(cap);
      Some(Strip(AliasHead(cap)))
  }

  /** Mother and father ids declared in a note's text. A note without the
      header declares neither; in a section, each label's first link gives
      an id, cut out of its bracketed text. */
  function Parse(content: string): (r: Parents)
    ensures !Occurs(content, Header) ==> r == Parents(None, None)
    ensures Section(content).Some? ==>
      (r.mother.Some? <==> FirstLink(Section(content).value, MotherLabel).Some?) &&
      (r.father.Some? <==> FirstLink(Section(content).value, FatherLabel).Some?)
    ensures Section(content).Some? && r.mother.Some? ==>
      Infix(r.mother.value, FirstLink(Section(content).value, MotherLabel).value)
    ensures Section(content).Some? && r.father.Some? ==>
      Infix(r.father.value, FirstLink(Section(content).value, FatherLabel).value)
    ensures Section(content).Some? ==>
      r.mother == ParentId(Section(content).value, MotherLabel) &&
      r.father == ParentId(Section(content).value, FatherLabel)
    ensures r.mother.Some? ==> WellFormedId(r.mother.value)
    ensures r.father.Some? ==> WellFormedId(r.father.value)
  {
    match Section(content)
    case None => Parents(None, None)
    case Some(block) => Parents(ParentId(block, MotherLabel), ParentId(block, FatherLabel))
  }

  // ---------------------------------------------------------------------
  // Round trip

  /** A name written into a link unchanged: trimmed, on one line, free of
      the alias bar and of `]`, and not containing the father label. */
  ghost predicate PlainName(x: string)
  {
    Trimmed(x) && '\n' !in x && '|' !in x && ']' !in x && !Occurs(x, FatherLabel)
  }

  /** One bullet line, `- Мать: [[x]]`, without its line break. */
  function LinkLine(tag: string, x: string): string
  {
    tag + " " + Open + x + Close
  }

  /** A note holding just a parents section in the canonical bullet format. */
  function Serialize(mother: string, father: string): string
  {
    Header + LinkLine(MotherLabel, mother) + "\n" + LinkLine(FatherLabel, father) + "\n"
  }

  /** A bullet line written at position |pre| matches there, capturing the name. */
  lemma MatchLinkLine(pre: string, tag: string, x: string, post: string)
    requires '\n' !in x && ']' !in x
    ensures MatchAt(pre + LinkLine(tag, x) + post, tag, |pre|) == Some(x)
  {
    var s := pre + LinkLine(tag, x) + post;
    var i := |pre|;
    var openAt := i + |tag| + 1;
    var closeAt := openAt + 2 + |x|;
    assert s[i..i + |tag|] == tag;
    assert s[i + |tag|] == ' ';
    assert s[openAt] == '[' && s[openAt + 1] == '[';
    assert s[openAt + 2..closeAt] == x;
    assert s[closeAt] == ']' && s[closeAt + 1] == ']';
    forall m | openAt + 2 <= m < closeAt
      ensures s[m] != ']' && s[m] != '\n'
    {
      assert s[m] == x[m - openAt - 2];
      assert x[m - openAt - 2] in x;
    }
    assert LinkShape(s, tag, i, 1, x);
    MatchAtComplete(s, tag, i, x);
  }

  /** The body of a serialized note, after the header. */
  function SerializedBlock(mother: string, father: string): string
  {
    LinkLine(MotherLabel, mother) + "\n" + LinkLine(FatherLabel, father) + "\n"
  }

  /** Text after `pre` with no line break followed by `#` holds no section end. */
  lemma NoSectionEndAfter(pre: string, block: string)
    requires forall k :: 0 <= k < |block| - 1 && block[k] == '\n' ==> block[k + 1] != '#'
    ensures Find(pre + block, SectionEnd, |pre|).None?
  {
    var content := pre + block;
    forall j: nat | |pre| <= j
      ensures !StartsAt(content, SectionEnd, j)
    {
      if j + 2 <= |content| {
        var k := j - |pre|;
        assert content[j] == block[k] && content[j + 1] == block[k + 1];
        if block[k] == '\n' {
          assert content[j..j + 2][1] == block[k + 1] != SectionEnd[1];
        } else {
          assert content[j..j + 2][0] == block[k] != SectionEnd[0];
        }
      }
    }
  }

  /** A bullet line holds no line break. */
  lemma LinkLineOneLine(tag: string, x: string)
    requires '\n' !in tag && '\n' !in x
    ensures '\n' !in LinkLine(tag, x)
  {
    assert LinkLine(tag, x) == tag + (" " + Open + x + Close);
  }

  /** Every line break inside a serialized block starts the father line. */
  lemma BlockBreaks(mother: string, father: string)
    requires PlainName(mother) && PlainName(father)
    ensures var block := SerializedBlock(mother, father);
            forall k :: 0 <= k < |block| - 1 && block[k] == '\n' ==> block[k + 1] == '-'
  {
    var m := LinkLine(MotherLabel, mother);
    var f := LinkLine(FatherLabel, father);
    var block := SerializedBlock(mother, father);
    assert MotherLabel == ['-', ' ', 'М', 'а', 'т', 'ь', ':'];
    assert FatherLabel == ['-', ' ', 'О', 'т', 'е', 'ц', ':'];
    LinkLineOneLine(MotherLabel, mother);
    LinkLineOneLine(FatherLabel, father);
    assert block == m + "\n" + f + "\n";
    forall k | 0 <= k < |block| - 1
      ensures block[k] == '\n' ==> block[k + 1] == '-'
    {
      if k < |m| {
        assert block[k] == m[k] && m[k] in m;
      } else if k > |m| {
        assert block[k] == f[k - |m| - 1] && f[k - |m| - 1] in f;
      } else {
        assert block[k + 1] == f[0] == FatherLabel[0];
      }
    }
  }

  lemma SerializedSection(mother: string, father: string)
    requires PlainName(mother) && PlainName(father)
    ensures Section(Serialize(mother, father)) == Some(SerializedBlock(mother, father))
  {
    var block := SerializedBlock(mother, father);
    var content := Serialize(mother, father);
    assert content == Header + block;
    assert StartsAt(content, Header, 0) by {
      assert content[..|Header|] == Header;
    }
    BlockBreaks(mother, father);
    NoSectionEndAfter(Header, block);
    assert content[|Header|..] == block;
  }

  /** A link found first, with a plain name, is the parent id. */
  lemma ParentIdOfPlain(block: string, tag: string, x: string)
    requires FirstLink(block, tag) == Some(x) && PlainName(x)
    ensures ParentId(block, tag) == Some(x)
  {
    assert '|' !in x;
    var head := AliasHead(x);
    assert head == x;
    assert Strip(head) == x;
  }

  /** The mother line of a serialized block, character by character: the
      label and the opening brackets, the name, the closing brackets, a
      line break. */
  lemma MotherLineShape(mother: string, father: string)
    ensures var block := SerializedBlock(mother, father);
            var b := 10 + |mother|;
            |LinkLine(MotherLabel, mother)| == b + 2 && b + 2 < |block| &&
            block[..10] == ['-', ' ', 'М', 'а', 'т', 'ь', ':', ' ', '[', '['] &&
            block[10..b] == mother && block[b] == ']' && block[b + 1] == ']' && block[b + 2] == '\n'
  {
    var lead := MotherLabel + " " + Open;
    assert lead == ['-', ' ', 'М', 'а', 'т', 'ь', ':', ' ', '[', '['];
    var block := SerializedBlock(mother, father);
    assert block == lead + mother + Close + ("\n" + LinkLine(FatherLabel, father) + "\n");
  }

  /** No father label starts before the father line: the mother line's
      own characters differ from it, and the mother's name does not hold it. */
  lemma NoFatherLabelBefore(mother: string, father: string, j: nat)
    requires PlainName(mother) && PlainName(father)
    requires j <= |LinkLine(MotherLabel, mother)|
    ensures !StartsAt(SerializedBlock(mother, father), FatherLabel, j)
  {
    var block := SerializedBlock(mother, father);
    var w := |FatherLabel|;
    var b := 10 + |mother|;
    MotherLineShape(mother, father);
    assert FatherLabel == ['-', ' ', 'О', 'т', 'е', 'ц', ':'];
    if j == 0 {
      assert block[2] == block[..10][2];
      assert w <= |block| ==> block[..w][2] != FatherLabel[2];
    } else if j < 10 {
      assert block[j] == block[..10][j];
      assert j + w <= |block| ==> block[j..j + w][0] != FatherLabel[0];
    } else if j + w <= b {
      assert block[j..j + w] == mother[j - 10..j - 10 + w];
      assert !StartsAt(mother, FatherLabel, j - 10);
    } else if j < b {
      assert j + w <= |block| ==> block[j..j + w][b - j] != FatherLabel[b - j];
    } else {
      assert j + w <= |block| ==> block[j..j + w][0] != FatherLabel[0];
    }
  }

  /** The first father link of a serialized note is on the father line. */
  lemma FatherLineFirst(mother: string, father: string)
    requires PlainName(mother) && PlainName(father)
    ensures FirstLinkAt(SerializedBlock(mother, father), FatherLabel, 0)
            == Some(|LinkLine(MotherLabel, mother)| + 1)
  {
    var m := LinkLine(MotherLabel, mother);
    var block := SerializedBlock(mother, father);
    MatchLinkLine(m + "\n", FatherLabel, father, "\n");
    assert m + "\n" + LinkLine(FatherLabel, father) + "\n" == block;
    forall j: nat | j <= |m|
      ensures MatchAt(block, FatherLabel, j).None?
    {
      NoFatherLabelBefore(mother, father, j);
    }
    FirstLinkAtIs(block, FatherLabel, 0, |m| + 1);
  }

  /** The mother link of a serialized note is found first, at its start. */
  lemma SerializedMother(mother: string, father: string)
    requires PlainName(mother) && PlainName(father)
    ensures ParentId(SerializedBlock(mother, father), MotherLabel) == Some(mother)
  {
    var block := SerializedBlock(mother, father);
    var rest := "\n" + LinkLine(FatherLabel, father) + "\n";
    LeadingLink(MotherLabel, mother, rest);
    assert LinkLine(MotherLabel, mother) + rest == block;
    ParentIdOfPlain(block, MotherLabel, mother);
  }

  /** The father link of a serialized note is found on the second line. */
  lemma SerializedFather(mother: string, father: string)
    requires PlainName(mother) && PlainName(father)
    ensures ParentId(SerializedBlock(mother, father), FatherLabel) == Some(father)
  {
    var m := LinkLine(MotherLabel, mother);
    var block := SerializedBlock(mother, father);
    FatherLineFirst(mother, father);
    MatchLinkLine(m + "\n", FatherLabel, father, "\n");
    assert m + "\n" + LinkLine(FatherLabel, father) + "\n" == block;
    assert FirstLink(block, FatherLabel) == Some(father);
    ParentIdOfPlain(block, FatherLabel, father);
  }

  /** Serializing a mother and a father with plain names and parsing the
      result gives both names back. */
  lemma ParseSerialize(mother: string, father: string)
    requires PlainName(mother) && PlainName(father)
    ensures Parse(Serialize(mother, father)) == Parents(Some(mother), Some(father))
  {
    SerializedSection(mother, father);
    SerializedMother(mother, father);
    SerializedFather(mother, father);
  }

  // ---------------------------------------------------------------------
  // Links with an alias

  /** Cutting at the first `|` keeps exactly the text before it. */
  lemma {:induction false} AliasHeadBar(a: string, b: string)
    requires '|' !in a
    ensures AliasHead(a + "|" + b) == a
  {
    if a != [] {
      assert (a + "|" + b)[1..] == a[1..] + "|" + b;
      AliasHeadBar(a[1..], b);
    }
  }

  /** Where the whitespace that ends at `e` begins, when `s[b..e]` is all
      whitespace and the character before `b` is not. */
  lemma {:induction false} SpaceBackStops(s: string, lo: nat, b: nat, e: nat)
    requires lo <= b <= e <= |s| && SpaceBetween(s, b, e) && (lo < b ==> !IsSpace(s[b - 1]))
    ensures SpaceBack(s, lo, e) == b
    decreases e - b
  {
    if b < e {
      SpaceBackStops(s, lo, b, e - 1);
    }
  }

  /** Stripping a trimmed text padded with whitespace gives the text back. */
  lemma StripPadded(a: string, x: string, b: string)
    requires SpaceBetween(a, 0, |a|) && SpaceBetween(b, 0, |b|) && Trimmed(x)
    ensures Strip(a + x + b) == x
  {
    var s := a + x + b;
    forall j | 0 <= j < |a| ensures IsSpace(s[j]) {
      assert s[j] == a[j];
    }
    forall j | |a| + |x| <= j < |s| ensures IsSpace(s[j]) {
      assert s[j] == b[j - |a| - |x|];
    }
    if x == [] {
      SkipSpaceStops(s, 0, |s|);
      SpaceBackStops(s, |s|, |s|, |s|);
    } else {
      assert s[|a|] == x[0] && s[|a| + |x| - 1] == x[|x| - 1];
      SkipSpaceStops(s, 0, |a|);
      SpaceBackStops(s, |a|, |a| + |x|, |s|);
      assert s[|a|..|a| + |x|] == x;
    }
  }

  /** A text that opens with a bullet line has that line's link first. */
  lemma LeadingLink(tag: string, cap: string, post: string)
    requires '\n' !in cap && ']' !in cap
    ensures FirstLink(LinkLine(tag, cap) + post, tag) == Some(cap)
  {
    var s := LinkLine(tag, cap) + post;
    MatchLinkLine([], tag, cap, post);
    assert [] + LinkLine(tag, cap) + post == s;
    FirstLinkAtIs(s, tag, 0, 0);
  }

  /** The bracketed text of a link with an alias, `[[ x | alias ]]`. */
  function AliasedCapture(x: string, alias: string): string
  {
    (" " + x + " ") + "|" + (" " + alias)
  }

  /** A bullet line whose link carries an alias, `- Мать: [[ x | alias ]]`. */
  function AliasedLine(tag: string, x: string, alias: string): string
  {
    LinkLine(tag, AliasedCapture(x, alias))
  }

  /** The id of an aliased link is the name before the bar, stripped: the
      alias is dropped. */
  lemma AliasedLinkId(tag: string, x: string, alias: string, post: string)
    requires Trimmed(x) && '\n' !in x && '|' !in x && ']' !in x
    requires '\n' !in alias && ']' !in alias
    ensures ParentId(AliasedLine(tag, x, alias) + post, tag) == Some(x)
  {
    var s := AliasedLine(tag, x, alias) + post;
    var head := " " + x + " ";
    LeadingLink(tag, AliasedCapture(x, alias), post);
    AliasHeadBar(head, " " + alias);
    StripPadded(" ", x, " ");
  }

  /** A note whose parents section opens with an aliased mother link:
      parsing it gives the name before the bar as the mother. */
  lemma ParseAliasedMother(x: string, alias: string)
    requires Trimmed(x) && '\n' !in x && '|' !in x && ']' !in x
    requires '\n' !in alias && ']' !in alias
    ensures Parse(Header + AliasedLine(MotherLabel, x, alias) + "\n").mother == Some(x)
  {
    var line := AliasedLine(MotherLabel, x, alias);
    var block := line + "\n";
    var content := Header + line + "\n";
    assert MotherLabel == ['-', ' ', 'М', 'а', 'т', 'ь', ':'];
    LinkLineOneLine(MotherLabel, AliasedCapture(x, alias));
    forall k | 0 <= k < |block| - 1
      ensures block[k] != '\n'
    {
      assert block[k] == line[k] && line[k] in line;
    }
    NoSectionEndAfter(Header, block);
    assert content == Header + block;
    assert StartsAt(content, Header, 0) by {
      assert content[..|Header|] == Header;
    }
    assert content[|Header|..] == block;
    assert Section(content) == Some(block);
    AliasedLinkId(MotherLabel, x, alias, "\n");
  }
}
