/**
 `process_text_with_context` of the general chatbot: every
 `{{context:NAME.txt}}` tag in a system message is replaced by the contents of
 the file NAME.txt, or by nothing when the file cannot be read. The
 substitution is Python's `re.sub` with the pattern
 `\{\{context:(.*?\.txt)\}\}`: tags are found left to right without overlap,
 the name is the shortest newline-free text ending in `.txt` that is directly
 followed by `}}`, and inserted contents are not scanned again. The files are
 a map from name to contents; a name missing from the map cannot be read.
 */
module ContextTags {
  import opened Wrappers
  import opened Text

  const Open: string := "{{context:"
  const Close: string := "}}"

  /** `.txt}}` starts at `k`, checked character by character. */
  predicate TailAt(text: string, k: int) {
    && 0 <= k && k + 6 <= |text|
    && text[k] == '.' && text[k + 1] == 't' && text[k + 2] == 'x' && text[k + 3] == 't'
    && text[k + 4] == '}' && text[k + 5] == '}'
  }

  /** `{{context:` starts at `i`, checked character by character. */
  predicate OpenAt(text: string, i: int) {
    && 0 <= i && i + 10 <= |text|
    && text[i] == '{' && text[i + 1] == '{' && text[i + 2] == 'c' && text[i + 3] == 'o'
    && text[i + 4] == 'n' && text[i + 5] == 't' && text[i + 6] == 'e' && text[i + 7] == 'x'
    && text[i + 8] == 't' && text[i + 9] == ':'
  }

  /** `text[s..e]` can be the captured name: it ends in `.txt`, `}}` follows, and
      the lazily matched part before `.txt` holds no newline. */
  predicate ValidEnd(text: string, s: int, e: int) {
    0 <= s && s + 4 <= e && e + 2 <= |text| && TailAt(text, e - 4) && '\n' !in text[s..e]
  }

  /** No name shorter than the one ending at `e` is valid. */
  predicate Shortest(text: string, s: int, e: int) {
    forall d :: s + 4 <= d < e ==> !ValidEnd(text, s, d)
  }

  /** No name starting at `s` is valid. */
  ghost predicate NoValidEnd(text: string, s: int) {
    forall e :: !ValidEnd(text, s, e)
  }

  /** The lazy `(.*?\.txt)\}\}` started at `s`, having consumed `text[s..k]`: the end
      of the shortest name, if any. */
  function NameEnd(text: string, s: nat, k: nat): (r: Option<nat>)
    requires s <= k <= |text|
    ensures r.Some? ==> k + 4 <= r.value && r.value + 2 <= |text|
    decreases |text| - k
  {
    if TailAt(text, k) then Some(k + 4)
    else if k < |text| && text[k] != '\n' then NameEnd(text, s, k + 1)
    else None
  }

  /** Started with no newline consumed and no valid end passed, the search finds
      the shortest valid name, or reports that there is none. */
  lemma {:induction false} NameEndSpec(text: string, s: nat, k: nat)
    requires s <= k <= |text|
    requires '\n' !in text[s..k]
    requires Shortest(text, s, k + 4)
    ensures NameEnd(text, s, k).Some? ==>
      var e := NameEnd(text, s, k).value;
      ValidEnd(text, s, e) && Shortest(text, s, e)
    ensures NameEnd(text, s, k).None? ==> NoValidEnd(text, s)
    decreases |text| - k
  {
    if TailAt(text, k) {
      assert text[s..k + 4] == text[s..k] + text[k..k + 4];
      forall m | k <= m < k + 4 ensures text[m] != '\n' {
        assert text[m] == text[k..k + 6][m - k];
      }
    } else if k < |text| && text[k] != '\n' {
      assert text[s..k + 1] == text[s..k] + [text[k]];
      NameEndSpec(text, s, k + 1);
    } else {
      forall e | s + 4 <= e && k + 4 < e && e + 2 <= |text|
        ensures '\n' in text[s..e]
      {
        assert text[s..e][k - s] == text[k];
      }
    }
  }

  /** A tag starts at `i`: the offset where its name ends, if any. */
  function MatchAt(text: string, i: nat): (r: Option<nat>)
    requires i <= |text|
    ensures r.Some? ==> i + |Open| + 4 <= r.value && r.value + 2 <= |text|
  {
    if OpenAt(text, i) then
      NameEnd(text, i + |Open|, i + |Open|)
    else None
  }

  /** A tag matches at `i` exactly when `{{context:` starts there and some valid
      name follows, and the name matched is the shortest one. */
  lemma MatchAtSpec(text: string, i: nat)
    requires i <= |text|
    ensures MatchAt(text, i).Some? ==>
      var e := MatchAt(text, i).value;
      && OpenAt(text, i)
      && ValidEnd(text, i + |Open|, e)
      && Shortest(text, i + |Open|, e)
    ensures MatchAt(text, i).None? ==>
      || !OpenAt(text, i)
      || NoValidEnd(text, i + |Open|)
  {
    if OpenAt(text, i) {
      NameEndSpec(text, i + |Open|, i + |Open|);
    }
  }

  /** A piece of the scanned text: a character copied as it is, or a tag. */
  datatype Piece = Literal(c: char) | Tag(name: string)

  /** `re.sub`'s scan from offset `i`: a tag where one starts, otherwise one
      character, and on after the tag or the character. */
  function Parse(text: string, i: nat): seq<Piece>
    requires i <= |text|
    decreases |text| - i
  {
    if i == |text| then []
    else
      var m := MatchAt(text, i);
      if m.Some? then [Tag(text[i + |Open|..m.value])] + Parse(text, m.value + 2)
      else [Literal(text[i])] + Parse(text, i + 1)
  }

  /** The text a piece was read from. */
  function UnparsePiece(p: Piece): string {
    match p
    case Literal(c) => [c]
    case Tag(name) => Open + name + Close
  }

  function Unparse(pieces: seq<Piece>): string {
    if pieces == [] then "" else UnparsePiece(pieces[0]) + Unparse(pieces[1..])
  }

  /** `replace_with_content` for a captured name. */
  function Replacement(name: string, files: map<string, string>): string {
    if !EndsWith(name, ".txt") then Open + name + Close
    else if name in files then files[name]
    else ""
  }

  /** The substituted text of a piece. */
  function RenderPiece(p: Piece, files: map<string, string>): string {
    match p
    case Literal(c) => [c]
    case Tag(name) => Replacement(name, files)
  }

  function Render(pieces: seq<Piece>, files: map<string, string>): string {
    if pieces == [] then "" else RenderPiece(pieces[0], files) + Render(pieces[1..], files)
  }

  lemma RenderCons(p: Piece, ps: seq<Piece>, files: map<string, string>)
    ensures Render([p] + ps, files) == RenderPiece(p, files) + Render(ps, files)
    ensures Unparse([p] + ps) == UnparsePiece(p) + Unparse(ps)
  {
    assert ([p] + ps)[1..] == ps;
  }

  /** `.txt}}` at `a`, as slices. */
  lemma TailParts(t: string, a: int)
    requires 0 <= a && a + 6 <= |t|
    ensures TailAt(t, a) <==> t[a..a + 4] == ".txt" && t[a + 4..a + 6] == Close
  {
    if t[a..a + 4] == ".txt" && t[a + 4..a + 6] == Close {
      assert t[a + 3] == t[a..a + 4][3];
      assert t[a + 5] == t[a + 4..a + 6][1];
    }
  }

  /** The text of a tag from offset `i`, its name ending at `e`. */
  lemma TagText(text: string, i: nat, e: nat)
    requires i + |Open| <= e && e + 2 <= |text|
    requires OpenAt(text, i) && text[e..e + 2] == Close
    ensures text[i..] == Open + text[i + |Open|..e] + Close + text[e + 2..]
  {
    assert text[i..i + |Open|] == Open;
    assert text[i..] == text[i..i + |Open|] + text[i + |Open|..e] + text[e..e + 2] + text[e + 2..];
  }

  /** The text with every tag substituted, as `re.sub` computes it. */
  function Expand(text: string, files: map<string, string>): string {
    Render(Parse(text, 0), files)
  }

  /** Some tag occurs in the text. */
  ghost predicate HasTag(text: string) {
    exists i :: 0 <= i <= |text| && MatchAt(text, i).Some?
  }

  /** The scan at a tag: the tag, then the scan after its closing `}}`. */
  lemma ParseTag(text: string, i: nat, e: nat)
    requires i < |text| && MatchAt(text, i) == Some(e)
    ensures Parse(text, i) == [Tag(text[i + |Open|..e])] + Parse(text, e + 2)
  {
  }

  /** The scan at a character outside tags: the character, then the scan after it. */
  lemma ParseChar(text: string, i: nat)
    requires i < |text| && MatchAt(text, i).None?
    ensures Parse(text, i) == [Literal(text[i])] + Parse(text, i + 1)
  {
  }

  lemma TagPieces(text: string, i: nat, e: nat)
    requires i < |text| && MatchAt(text, i) == Some(e)
    ensures Unparse(Parse(text, i)) == Open + text[i + |Open|..e] + Close + Unparse(Parse(text, e + 2))
  {
    ParseTag(text, i, e);
    RenderCons(Tag(text[i + |Open|..e]), Parse(text, e + 2), map[]);
  }

  lemma TagRender(text: string, i: nat, e: nat, files: map<string, string>)
    requires i < |text| && MatchAt(text, i) == Some(e)
    ensures Render(Parse(text, i), files)
         == RenderPiece(Tag(text[i + |Open|..e]), files) + Render(Parse(text, e + 2), files)
  {
    ParseTag(text, i, e);
    RenderCons(Tag(text[i + |Open|..e]), Parse(text, e + 2), files);
  }

  lemma CharRender(text: string, i: nat, files: map<string, string>)
    requires i < |text| && MatchAt(text, i).None?
    ensures Render(Parse(text, i), files) == RenderPiece(Literal(text[i]), files) + Render(Parse(text, i + 1), files)
  {
    ParseChar(text, i);
    RenderCons(Literal(text[i]), Parse(text, i + 1), files);
  }

  lemma TagStep(text: string, i: nat, e: nat)
    requires i < |text| && MatchAt(text, i) == Some(e)
    requires Unparse(Parse(text, e + 2)) == text[e + 2..]
    ensures Unparse(Parse(text, i)) == text[i..]
  {
    TagPieces(text, i, e);
    MatchAtSpec(text, i);
    TailParts(text, e - 4);
    TagText(text, i, e);
  }

  lemma CharStep(text: string, i: nat)
    requires i < |text| && MatchAt(text, i).None?
    requires Unparse(Parse(text, i + 1)) == text[i + 1..]
    ensures Unparse(Parse(text, i)) == text[i..]
  {
    ParseChar(text, i);
    RenderCons(Literal(text[i]), Parse(text, i + 1), map[]);
    ConsSlice(text, i);
  }

  lemma ConsSlice(text: string, i: nat)
    requires i < |text|
    ensures text[i..] == [text[i]] + text[i + 1..]
  {
  }

  /** The scan loses nothing: putting the pieces back together gives the text. */
  lemma {:induction false} ParseRoundTrip(text: string, i: nat)
    requires i <= |text|
    ensures Unparse(Parse(text, i)) == text[i..]
    decreases |text| - i
  {
    if i < |text| {
      var m := MatchAt(text, i);
      if m.Some? {
        ParseRoundTrip(text, m.value + 2);
        TagStep(text, i, m.value);
      } else {
        ParseRoundTrip(text, i + 1);
        CharStep(text, i);
      }
    }
  }

  /** The closing `.txt}}` of a name ends at `j + 2` in `t`. */
  predicate ClosesAt(t: string, j: int) {
    4 <= j && TailAt(t, j - 4)
  }

  /** Every captured name ends in `.txt`, holds no newline, and is the shortest
      possible: no earlier `.txt}}` closes it. */
  predicate WellCaptured(name: string) {
    && EndsWith(name, ".txt")
    && '\n' !in name
    && forall j :: 4 <= j < |name| ==> !ClosesAt(name + Close, j)
  }

  lemma CapturedName(text: string, i: nat, e: nat)
    requires i <= |text| && MatchAt(text, i) == Some(e)
    ensures WellCaptured(text[i + |Open|..e])
  {
    MatchAtSpec(text, i);
    var s := i + |Open|;
    var name := text[s..e];
    var closed := name + Close;
    assert closed == text[s..e + 2];
    TailParts(text, e - 4);
    assert name[|name| - 4..] == text[e - 4..e];
    forall j | 4 <= j < |name|
      ensures !ClosesAt(closed, j)
    {
      var d := s + j;
      var prefix := text[s..d];
      assert prefix == name[..j];
      assert '\n' !in prefix;
      assert !ValidEnd(text, s, d);
    }
  }

  /** All tags of a scan are well captured. */
  lemma {:induction false} ParseNames(text: string, i: nat)
    requires i <= |text|
    ensures forall p :: p in Parse(text, i) && p.Tag? ==> WellCaptured(p.name)
    decreases |text| - i
  {
    if i < |text| {
      var m := MatchAt(text, i);
      if m.Some? {
        CapturedName(text, i, m.value);
        ParseNames(text, m.value + 2);
      } else {
        ParseNames(text, i + 1);
      }
    }
  }

  /** Since the name always ends in `.txt`, the branch that keeps the tag never
      applies: a tag becomes the file's contents, or nothing when it cannot be read. */
  lemma ReplacementOfCaptured(name: string, files: map<string, string>)
    requires WellCaptured(name)
    ensures name in files ==> Replacement(name, files) == files[name]
    ensures name !in files ==> Replacement(name, files) == ""
  {
  }

  /** Conversely, a text that is exactly one tag around a well-captured name is
      read as that one tag, and it becomes the file's contents even when those
      contents hold tags themselves: inserted text is not scanned again. */
  lemma SingleTag(name: string, files: map<string, string>)
    requires WellCaptured(name)
    ensures Parse(Open + name + Close, 0) == [Tag(name)]
    ensures Render(Parse(Open + name + Close, 0), files) == if name in files then files[name] else ""
  {
    var t := Open + name + Close;
    var e := |Open| + |name|;
    SingleTagMatch(name);
    assert t[|Open|..e] == name;
    ParseTag(t, 0, e);
    RenderCons(Tag(name), [], files);
    ReplacementOfCaptured(name, files);
  }

  /** The tag in a text that is exactly one tag ends where the name does. */
  lemma SingleTagMatch(name: string)
    requires WellCaptured(name)
    ensures MatchAt(Open + name + Close, 0) == Some(|Open| + |name|)
  {
    var t := Open + name + Close;
    var s := |Open|;
    var e := s + |name|;
    assert t[s..e] == name;
    assert t[e..] == Close;
    assert t[e - 4..e] == name[|name| - 4..];
    TailParts(t, e - 4);
    assert ValidEnd(t, s, e);
    forall d | s + 4 <= d < e
      ensures !ValidEnd(t, s, d)
    {
      var j := d - s;
      assert !ClosesAt(name + Close, j);
    }
    assert OpenAt(t, 0);
    MatchAtSpec(t, 0);
  }

  /** A piece as a plain lookup: a tag becomes the file's contents, or nothing. */
  function Lookup(p: Piece, files: map<string, string>): string {
    match p
    case Literal(c) => [c]
    case Tag(name) => if name in files then files[name] else ""
  }

  function LookupAll(pieces: seq<Piece>, files: map<string, string>): string {
    if pieces == [] then "" else Lookup(pieces[0], files) + LookupAll(pieces[1..], files)
  }

  /** With well-captured names the substitution is the plain lookup. */
  lemma {:induction false} RenderIsLookup(pieces: seq<Piece>, files: map<string, string>)
    requires forall p :: p in pieces && p.Tag? ==> WellCaptured(p.name)
    ensures Render(pieces, files) == LookupAll(pieces, files)
  {
    if pieces != [] {
      assert pieces[0] in pieces;
      if pieces[0].Tag? {
        ReplacementOfCaptured(pieces[0].name, files);
      }
      assert forall p :: p in pieces[1..] ==> p in pieces;
      RenderIsLookup(pieces[1..], files);
    }
  }

  /** The expanded text: every tag of the scan looked up in the files, every
      other character copied. */
  lemma ExpandIsLookup(text: string, files: map<string, string>)
    ensures Expand(text, files) == LookupAll(Parse(text, 0), files)
  {
    ParseNames(text, 0);
    RenderIsLookup(Parse(text, 0), files);
  }

  /** Without tags from `i` on, the scan copies every character. */
  lemma {:induction false} NoTagCopies(text: string, i: nat, files: map<string, string>)
    requires i <= |text|
    requires forall j :: i <= j <= |text| ==> MatchAt(text, j).None?
    ensures Render(Parse(text, i), files) == text[i..]
    decreases |text| - i
  {
    if i < |text| {
      NoTagCopies(text, i + 1, files);
      CharRender(text, i, files);
      assert text[i..] == [text[i]] + text[i + 1..];
    }
  }

  /** The scan at the end of the text is empty. */
  lemma EndRender(text: string, files: map<string, string>)
    ensures Render(Parse(text, |text|), files) == ""
  {
  }

  /** Text without a tag renders as itself. */
  lemma NoTagRender(text: string, files: map<string, string>)
    ensures !HasTag(text) ==> Render(Parse(text, 0), files) == text
  {
    if !HasTag(text) {
      NoTagCopies(text, 0, files);
    }
  }

  /** One step of `re.sub` at offset `i`: the text that replaces what starts there
      (a tag's replacement, or the character itself) and the offset after it. */
  method Step(text: string, i: nat, files: map<string, string>) returns (piece: string, next: nat)
    requires i < |text|
    ensures i < next <= |text|
    ensures Render(Parse(text, i), files) == piece + Render(Parse(text, next), files)
  {
    var m := MatchAt(text, i);
    if m.Some? {
      var e := m.value;
      TagRender(text, i, e, files);
      piece := RenderPiece(Tag(text[i + |Open|..e]), files);
      next := e + 2;
    } else {
      CharRender(text, i, files);
      piece := RenderPiece(Literal(text[i]), files);
      next := i + 1;
    }
  }

  /** Python's `process_text_with_context`: empty text is returned at once, and
      otherwise each tag is replaced in one left-to-right pass. */
  method ProcessText(text: string, files: map<string, string>) returns (out: string)
    ensures out == Expand(text, files)
    ensures text == "" ==> out == text
    ensures !HasTag(text) ==> out == text
  {
    if text == "" {
      return text;
    }
    ghost var total := Render(Parse(text, 0), files);
    out := "";
    var i := 0;
    assert out + total == total;
    while i < |text|
      invariant 0 <= i <= |text|
      invariant out + Render(Parse(text, i), files) == total
      decreases |text| - i
    {
      var piece, next := Step(text, i, files);
      AppendAssociative(out, piece, Render(Parse(text, next), files));
      out := out + piece;
      i := next;
    }
    EndRender(text, files);
    NoTagRender(text, files);
  }

  /** `load_system_messages` on the decoded items (name, message): each message
      expanded, stored under its name, a later item replacing an earlier one. */
  function LoadSystemMessages(items: seq<(string, string)>, files: map<string, string>): (m: map<string, string>)
    ensures m.Keys == set i | 0 <= i < |items| :: items[i].0
    decreases |items|
  {
    if items == [] then map[]
    else
      var last := items[|items| - 1];
      var m := LoadSystemMessages(items[..|items| - 1], files);
      assert forall i :: 0 <= i < |items| - 1 ==> items[..|items| - 1][i] == items[i];
      m[last.0 := Expand(last.1, files)]
  }

  /** A name holds the expansion of the last message given under it. */
  lemma {:induction false} LastMessageWins(items: seq<(string, string)>, files: map<string, string>, i: nat)
    requires i < |items|
    requires forall j :: i < j < |items| ==> items[j].0 != items[i].0
    ensures items[i].0 in LoadSystemMessages(items, files)
    ensures LoadSystemMessages(items, files)[items[i].0] == Expand(items[i].1, files)
    decreases |items|
  {
    if i < |items| - 1 {
      var front := items[..|items| - 1];
      assert front[i] == items[i];
      forall j | i < j < |front| ensures front[j].0 != front[i].0 {
        assert front[j] == items[j];
      }
      LastMessageWins(front, files, i);
    }
  }
}
