/** The content index the outline is built from: directories, files and
    pages, each with its own ordered children. */
module Index {

  datatype Option<T> = None | Some(value: T)

  datatype Kind = Dir | File | Page

  /** The data of one index node, without its children. */
  datatype Entry = Entry(kind: Kind, title: string, path: string,
                         mtime: int, size: nat, page: int, anchor: string)

  /** One node of the index together with the nodes it owns. */
  datatype FileIndex = FileIndex(entry: Entry, children: seq<FileIndex>)

  // ---------------------------------------------------------------------
  // Positions inside the index tree

  predicate IsPos(fi: FileIndex, pos: seq<nat>)
    decreases pos
  {
    pos == [] || (pos[0] < |fi.children| && IsPos(fi.children[pos[0]], pos[1..]))
  }

  function NodeAt(fi: FileIndex, pos: seq<nat>): FileIndex
    requires IsPos(fi, pos)
    decreases pos
  {
    if pos == [] then fi else NodeAt(fi.children[pos[0]], pos[1..])
  }

  function ReplaceAt(fi: FileIndex, pos: seq<nat>, x: FileIndex): FileIndex
    requires IsPos(fi, pos)
    decreases pos
  {
    if pos == [] then x
    else fi.(children := fi.children[pos[0] := ReplaceAt(fi.children[pos[0]], pos[1..], x)])
  }

  /** Replacing the node at a position puts exactly that node there. */
  lemma {:induction false} ReplaceAtFacts(fi: FileIndex, pos: seq<nat>, x: FileIndex)
    requires IsPos(fi, pos)
    ensures IsPos(ReplaceAt(fi, pos, x), pos)
    ensures NodeAt(ReplaceAt(fi, pos, x), pos) == x
    decreases pos
  {
    if pos != [] {
      ReplaceAtFacts(fi.children[pos[0]], pos[1..], x);
    }
  }

  // ---------------------------------------------------------------------
  // Resolving an outline item to the index node it points at.
  // An item stores a pointer to its index node; the model follows the
  // entries of the item and its ancestors down the index, taking at each
  // level the first child whose entry is equal.

  function FirstWith(cs: seq<FileIndex>, e: Entry): (k: int)
    ensures -1 <= k < |cs|
    ensures k >= 0 ==> cs[k].entry == e && forall j :: 0 <= j < k ==> cs[j].entry != e
    ensures k == -1 ==> forall j :: 0 <= j < |cs| ==> cs[j].entry != e
  {
    if cs == [] then -1
    else if cs[0].entry == e then 0
    else var k := FirstWith(cs[1..], e); if k == -1 then -1 else k + 1
  }

  /** The position reached by following `chain` from `fi`, if every step finds a child. */
  function Locate(fi: FileIndex, chain: seq<Entry>): (r: Option<seq<nat>>)
    ensures r.Some? ==> |r.value| == |chain| && IsPos(fi, r.value)
    ensures r.Some? && chain != [] ==> NodeAt(fi, r.value).entry == chain[|chain| - 1]
    decreases chain
  {
    if chain == [] then Some([])
    else
      var k := FirstWith(fi.children, chain[0]);
      if k == -1 then None
      else match Locate(fi.children[k], chain[1..])
        case None => None
        case Some(rest) =>
          assert ([k] + rest)[1..] == rest;
          Some([k] + rest)
  }

  /** The three in-place edits the outline makes on index nodes. */
  datatype Edit =
    | AppendChildren(cs: seq<FileIndex>)   // moveChildChildren: take over another node's children
    | RemoveChild(e: Entry)                // removeChild: drop the first child with this entry
    | SetPath(path: string, title: string) // a rename: new path and title

  function Apply(ed: Edit, fi: FileIndex): FileIndex
  {
    match ed
    case AppendChildren(cs) => fi.(children := fi.children + cs)
    case RemoveChild(e) =>
      var k := FirstWith(fi.children, e);
      if k == -1 then fi else fi.(children := fi.children[..k] + fi.children[k + 1..])
    case SetPath(p, t) => fi.(entry := fi.entry.(path := p, title := t))
  }

  /** Edits the node the chain resolves to; the index is unchanged when it resolves to nothing. */
  function EditAt(fi: FileIndex, chain: seq<Entry>, ed: Edit): (r: FileIndex)
    ensures Locate(fi, chain).None? ==> r == fi
    ensures Locate(fi, chain).Some? ==> IsPos(r, Locate(fi, chain).value)
    ensures Locate(fi, chain).Some? ==>
      NodeAt(r, Locate(fi, chain).value) == Apply(ed, NodeAt(fi, Locate(fi, chain).value))
  {
    match Locate(fi, chain)
    case None => fi
    case Some(pos) =>
      ReplaceAtFacts(fi, pos, Apply(ed, NodeAt(fi, pos)));
      ReplaceAt(fi, pos, Apply(ed, NodeAt(fi, pos)))
  }

  /** RemoveChild takes out exactly one child, the first one with the entry, when there is one. */
  lemma RemoveChildEffect(fi: FileIndex, e: Entry)
    ensures var k := FirstWith(fi.children, e);
      k == -1 ==> Apply(RemoveChild(e), fi) == fi
    ensures var k := FirstWith(fi.children, e);
      k >= 0 ==> (|Apply(RemoveChild(e), fi).children| == |fi.children| - 1
              && multiset(Apply(RemoveChild(e), fi).children) + multiset{fi.children[k]} == multiset(fi.children))
  {
    var k := FirstWith(fi.children, e);
    if k >= 0 {
      assert fi.children == fi.children[..k] + [fi.children[k]] + fi.children[k + 1..];
    }
  }

  // ---------------------------------------------------------------------
  // Titles and user text

  /** Position of the last '/' in `p`, or -1 when there is none (std::string::rfind). */
  function LastSlash(p: string): (r: int)
    ensures -1 <= r < |p|
    ensures r >= 0 ==> p[r] == '/'
    ensures forall k :: r < k < |p| ==> p[k] != '/'
  {
    if p == [] then -1
    else if p[|p| - 1] == '/' then |p| - 1
    else LastSlash(p[..|p| - 1])
  }

  /** The title a renamed file gets: what follows the last '/' of its path, or
      the whole path when it has none (npos + 1 wraps to 0). */
  function TitleFromPath(p: string): (t: string)
    ensures |t| <= |p| && t == p[|p| - |t|..]
    ensures forall j :: 0 <= j < |t| ==> t[j] != '/'
    ensures |t| < |p| ==> p[|p| - |t| - 1] == '/'
  {
    p[LastSlash(p) + 1..]
  }

  /** A path made of a directory part and a slash-free name has that name as its title. */
  lemma {:induction false} TitleOfJoinedPath(dir: string, name: string)
    requires '/' !in name
    ensures TitleFromPath(dir + "/" + name) == name
  {
    var p := dir + "/" + name;
    assert p[|dir|] == '/';
    assert forall k :: |dir| < k < |p| ==> p[k] == name[k - |dir| - 1];
    assert LastSlash(p) == |dir|;
    assert p[|dir| + 1..] == name;
  }

  /** The white space QString::trimmed strips, which is what QChar::isSpace
      accepts: tab to carriage return, the space, NEL, and the Unicode
      space, line and paragraph separators (categories Zs, Zl and Zp). */
  predicate IsSpace(c: char)
  {
    c == ' ' || '\t' <= c <= '\r' || c == '\U{0085}' || c == '\U{00A0}' || c == '\U{1680}'
    || '\U{2000}' <= c <= '\U{200A}' || c == '\U{2028}' || c == '\U{2029}'
    || c == '\U{202F}' || c == '\U{205F}' || c == '\U{3000}'
  }

  /** How many white-space characters s starts with. */
  function LeadingSpaces(s: string): (n: nat)
    ensures n <= |s|
    ensures forall k :: 0 <= k < n ==> IsSpace(s[k])
    ensures n < |s| ==> !IsSpace(s[n])
  {
    if s == [] || !IsSpace(s[0]) then 0
    else
      var m := LeadingSpaces(s[1..]);
      assert forall k :: 0 < k <= m ==> s[k] == s[1..][k - 1];
      1 + m
  }

  /** How many white-space characters s ends with. */
  function TrailingSpaces(s: string): (n: nat)
    ensures n <= |s|
    ensures forall k :: |s| - n <= k < |s| ==> IsSpace(s[k])
    ensures n < |s| ==> !IsSpace(s[|s| - n - 1])
  {
    if s == [] || !IsSpace(s[|s| - 1]) then 0
    else 1 + TrailingSpaces(s[..|s| - 1])
  }

  /** QString::trimmed: the text without leading and trailing white space. */
  function Trimmed(s: string): string
  {
    var a := LeadingSpaces(s);
    s[a..|s| - TrailingSpaces(s[a..])]
  }

  /** Trimmed keeps the contiguous middle part of s that starts after the
      leading white space; only white space is cut off, none is left at
      either end, and the result is empty exactly when s is all white
      space. */
  lemma TrimmedFacts(s: string)
    ensures LeadingSpaces(s) + |Trimmed(s)| <= |s|
    ensures Trimmed(s) == s[LeadingSpaces(s)..LeadingSpaces(s) + |Trimmed(s)|]
    ensures forall k :: 0 <= k < LeadingSpaces(s) ==> IsSpace(s[k])
    ensures forall k :: LeadingSpaces(s) + |Trimmed(s)| <= k < |s| ==> IsSpace(s[k])
    ensures Trimmed(s) != [] ==> !IsSpace(Trimmed(s)[0]) && !IsSpace(Trimmed(s)[|Trimmed(s)| - 1])
    ensures Trimmed(s) == [] <==> forall k :: 0 <= k < |s| ==> IsSpace(s[k])
  {
    TrimmedSlice(s);
    TailSpaces(s, LeadingSpaces(s));
    TrimmedEnds(s);
  }

  lemma TrimmedSlice(s: string)
    ensures LeadingSpaces(s) + TrailingSpaces(s[LeadingSpaces(s)..]) <= |s|
    ensures |Trimmed(s)| == |s| - LeadingSpaces(s) - TrailingSpaces(s[LeadingSpaces(s)..])
    ensures Trimmed(s) == s[LeadingSpaces(s)..LeadingSpaces(s) + |Trimmed(s)|]
  {
  }

  /** What TrailingSpaces counts at the back of s[a..] is white space in s. */
  lemma TailSpaces(s: string, a: nat)
    requires a <= |s|
    ensures forall k :: |s| - TrailingSpaces(s[a..]) <= k < |s| ==> IsSpace(s[k])
  {
    var t := s[a..];
    forall k | |s| - TrailingSpaces(t) <= k < |s| ensures IsSpace(s[k]) {
      assert s[k] == t[k - a];
    }
  }

  /** A non-empty trimmed text starts and ends with a non-space. */
  lemma TrimmedEnds(s: string)
    ensures Trimmed(s) != [] ==> !IsSpace(Trimmed(s)[0]) && !IsSpace(Trimmed(s)[|Trimmed(s)| - 1])
  {
    TrimmedSlice(s);
    var a := LeadingSpaces(s);
    var t := s[a..];
    var r := Trimmed(s);
    if r != [] {
      assert r[0] == s[a];
      assert r[|r| - 1] == t[|t| - TrailingSpaces(t) - 1];
    }
  }

  /** A text of nothing but an ideographic space trims to nothing, so as a
      filter text it clears the filter and as a new name it is refused. */
  lemma IdeographicSpaceTrims()
    ensures Trimmed("\U{3000}") == []
    ensures Trimmed(" a\U{2028}") == "a"
  {
    TrimmedFacts("\U{3000}");
    TrimmedFacts(" a\U{2028}");
  }
}
