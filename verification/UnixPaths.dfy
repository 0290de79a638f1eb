/** Canonical absolute byte paths and the component-prefix test (internal_paths.rs, query_plan.rs). */
module UnixPaths {
  import opened Prelude

  const MAX_LOCATOR_BYTES: nat := 64 * 1024
  const MAX_COMPONENT_BYTES: nat := 255
  const MAX_COMPONENTS: nat := 256
  const MAX_ROOT_BYTES: nat := 4096

  /** Slice splitting: always at least one piece, separators removed. */
  function Split(s: string, sep: char): (pieces: seq<string>)
    ensures |pieces| >= 1
    ensures forall p :: p in pieces ==> sep !in p
  {
    if s == [] then [""]
    else
      var rest := Split(s[1..], sep);
      if s[0] == sep then [""] + rest else [[s[0]] + rest[0]] + rest[1..]
  }

  /** Pieces joined by one separator. */
  function Join(pieces: seq<string>, sep: char): string {
    if pieces == [] then ""
    else if |pieces| == 1 then pieces[0]
    else pieces[0] + [sep] + Join(pieces[1..], sep)
  }

  lemma {:induction false} JoinSplit(s: string, sep: char)
    ensures Join(Split(s, sep), sep) == s
  {
    if s != [] {
      var rest := Split(s[1..], sep);
      JoinSplit(s[1..], sep);
      if s[0] == sep {
        assert ([""] + rest)[1..] == rest;
      } else {
        var whole := [[s[0]] + rest[0]] + rest[1..];
        assert whole[1..] == rest[1..];
        if |rest| > 1 {
          assert whole[0] + [sep] + Join(rest[1..], sep) == [s[0]] + (rest[0] + [sep] + Join(rest[1..], sep));
        }
      }
    }
  }

  lemma {:induction false} SplitPiece(piece: string, sep: char)
    requires sep !in piece
    ensures Split(piece, sep) == [piece]
  {
    if piece != [] {
      assert piece[0] in piece && piece == [piece[0]] + piece[1..];
      SplitPiece(piece[1..], sep);
    }
  }

  lemma {:induction false} SplitAfterPiece(piece: string, rest: string, sep: char)
    requires sep !in piece
    ensures Split(piece + [sep] + rest, sep) == [piece] + Split(rest, sep)
  {
    var s := piece + [sep] + rest;
    if piece == [] {
      assert s[1..] == rest;
    } else {
      assert piece[0] in piece && piece == [piece[0]] + piece[1..];
      assert s[0] == piece[0] && s[1..] == piece[1..] + [sep] + rest;
      SplitAfterPiece(piece[1..], rest, sep);
    }
  }

  lemma {:induction false} SplitJoin(pieces: seq<string>, sep: char)
    requires pieces != [] && forall p :: p in pieces ==> sep !in p
    ensures Split(Join(pieces, sep), sep) == pieces
  {
    if |pieces| == 1 {
      SplitPiece(pieces[0], sep);
    } else {
      SplitAfterPiece(pieces[0], Join(pieces[1..], sep), sep);
      SplitJoin(pieces[1..], sep);
    }
  }

  /** Joined lists with a common tail point: a list prefix is a text prefix followed by a separator. */
  lemma {:induction false} JoinAppend(front: seq<string>, back: seq<string>, sep: char)
    requires front != [] && back != []
    ensures Join(front + back, sep) == Join(front, sep) + [sep] + Join(back, sep)
  {
    assert (front + back)[1..] == front[1..] + back;
    if |front| > 1 {
      JoinAppend(front[1..], back, sep);
    }
  }

  // ---- The parser -----------------------------------------------------------------------------------------

  datatype PathError =
    | Empty | TooLong | NotAbsolute | ContainsNul | TrailingSeparator | DuplicateSeparator
    | TooManyComponents | DotComponent | DotDotComponent | ComponentTooLong

  datatype CanonicalPath = CanonicalPath(bytes: string, components: seq<string>)

  predicate HasDuplicateSeparator(bytes: string) {
    exists i :: 0 <= i < |bytes| - 1 && bytes[i] == '/' && bytes[i + 1] == '/'
  }

  /** What is wrong with one component of an absolute path. */
  function PieceError(component: string): Option<PathError> {
    if component == "." then Some(DotComponent)
    else if component == ".." then Some(DotDotComponent)
    else if |component| > MAX_COMPONENT_BYTES then Some(ComponentTooLong)
    else None
  }

  /** The check that one component faces in the parser's loop, with `seen` components before it. */
  function ComponentError(component: string, seen: nat): Option<PathError> {
    if seen == MAX_COMPONENTS then Some(TooManyComponents) else PieceError(component)
  }

  /** `CanonicalUnixPathV1::new`. */
  method NewPath(bytes: string) returns (r: Result<CanonicalPath, PathError>)
    ensures r.Ok? <==> IsCanonical(bytes)
    ensures r.Ok? ==> r.value == CanonicalPath(bytes, Components(bytes))
    ensures r.Err? ==> r.error == FirstError(bytes)
  {
    if bytes == [] { return Err(Empty); }
    if |bytes| > MAX_LOCATOR_BYTES { return Err(TooLong); }
    if bytes[0] != '/' { return Err(NotAbsolute); }
    if '\0' in bytes { return Err(ContainsNul); }
    if |bytes| > 1 && bytes[|bytes| - 1] == '/' { return Err(TrailingSeparator); }
    if HasDuplicateSeparator(bytes) { return Err(DuplicateSeparator); }
    var components: seq<string> := [];
    if bytes != "/" {
      var pieces := Split(bytes[1..], '/');
      for i := 0 to |pieces|
        invariant components == pieces[..i]
        invariant i <= MAX_COMPONENTS
        invariant forall j :: 0 <= j < i ==> ComponentError(pieces[j], j).None?
        invariant FirstComponentError(pieces, 0) == FirstComponentError(pieces, i)
      {
        var e := ComponentError(pieces[i], |components|);
        if e.Some? {
          assert ComponentError(Components(bytes)[i], i).Some?;
          return Err(e.value);
        }
        components := components + [pieces[i]];
      }
      assert pieces[..|pieces|] == pieces;
    }
    return Ok(CanonicalPath(bytes, components));
  }

  function Components(bytes: string): seq<string> {
    if |bytes| == 0 || bytes == "/" then [] else Split(bytes[1..], '/')
  }

  /** The loop's verdict from position `i`: the first component that fails its check. */
  function FirstComponentError(pieces: seq<string>, i: nat): (e: Option<PathError>)
    requires i <= |pieces|
    ensures e.None? <==> forall j :: i <= j < |pieces| ==> ComponentError(pieces[j], j).None?
    decreases |pieces| - i
  {
    if i == |pieces| then None
    else if ComponentError(pieces[i], i).Some? then ComponentError(pieces[i], i)
    else FirstComponentError(pieces, i + 1)
  }

  /** Which error an uncanonical path gets. */
  function FirstError(bytes: string): PathError
    requires !IsCanonical(bytes)
  {
    if bytes == [] then Empty
    else if |bytes| > MAX_LOCATOR_BYTES then TooLong
    else if bytes[0] != '/' then NotAbsolute
    else if '\0' in bytes then ContainsNul
    else if |bytes| > 1 && bytes[|bytes| - 1] == '/' then TrailingSeparator
    else if HasDuplicateSeparator(bytes) then DuplicateSeparator
    else FirstComponentError(Components(bytes), 0).value
  }

  /** What the parser accepts, without mentioning how it scans. */
  predicate IsCanonical(bytes: string) {
    && 0 < |bytes| <= MAX_LOCATOR_BYTES && bytes[0] == '/' && '\0' !in bytes
    && (|bytes| > 1 ==> bytes[|bytes| - 1] != '/')
    && !HasDuplicateSeparator(bytes)
    && forall j :: 0 <= j < |Components(bytes)| ==> ComponentError(Components(bytes)[j], j).None?
  }

  /** A name that can stand between two separators. */
  predicate IsName(c: string) {
    && 0 < |c| <= MAX_COMPONENT_BYTES && '/' !in c && '\0' !in c && c != "." && c != ".."
  }

  /** The text of a component list. */
  function Absolute(components: seq<string>): string {
    "/" + Join(components, '/')
  }

  lemma {:induction false} SplitPiecesNonEmpty(s: string)
    requires s != [] && s[0] != '/' && s[|s| - 1] != '/' && !HasDuplicateSeparator(s)
    ensures forall k :: 0 <= k < |Split(s, '/')| ==> Split(s, '/')[k] != []
    decreases |s|
  {
    if |s| > 1 {
      if s[1] == '/' {
        assert s[2] != '/' by { assert !(s[1] == '/' && s[2] == '/'); }
        NoDuplicateInSuffix(s, 2);
        SplitPiecesNonEmpty(s[2..]);
        assert s[1..][1..] == s[2..];
        assert Split(s[1..], '/') == [""] + Split(s[2..], '/');
      } else {
        NoDuplicateInSuffix(s, 1);
        SplitPiecesNonEmpty(s[1..]);
      }
    }
  }

  lemma NoDuplicateInSuffix(s: string, k: nat)
    requires k <= |s| && !HasDuplicateSeparator(s)
    ensures !HasDuplicateSeparator(s[k..])
  {
    var t := s[k..];
    forall i | 0 <= i < |t| - 1 ensures !(t[i] == '/' && t[i + 1] == '/') {
      assert t[i] == s[k + i] && t[i + 1] == s[k + i + 1];
    }
  }

  lemma {:induction false} SplitCharsCome(s: string, sep: char)
    ensures forall p, c :: p in Split(s, sep) && c in p ==> c in s
  {
    if s != [] {
      SplitCharsCome(s[1..], sep);
    }
  }

  /** An absolute path in canonical form, of any size and with any number of components. */
  predicate IsRoot(bytes: string) {
    && bytes != "" && bytes[0] == '/' && '\0' !in bytes && (|bytes| > 1 ==> bytes[|bytes| - 1] != '/')
    && !HasDuplicateSeparator(bytes)
    && forall j :: 0 <= j < |Components(bytes)| ==> PieceError(Components(bytes)[j]).None?
  }

  /** Splitting a canonical absolute path yields names, and joining them gives the path back. */
  lemma RootJoinsBack(bytes: string)
    requires IsRoot(bytes)
    ensures forall c :: c in Components(bytes) ==> IsName(c)
    ensures Absolute(Components(bytes)) == bytes
  {
    var cs := Components(bytes);
    if bytes != "/" {
      var s := bytes[1..];
      JoinSplit(s, '/');
      NoDuplicateInSuffix(bytes, 1);
      assert s[0] != '/' by { assert !(bytes[0] == '/' && bytes[1] == '/'); }
      SplitPiecesNonEmpty(s);
      SplitCharsCome(s, '/');
      forall c | c in cs ensures IsName(c) {
        var j :| 0 <= j < |cs| && cs[j] == c;
        assert PieceError(cs[j]).None?;
      }
    }
  }

  lemma CanonicalIsRoot(bytes: string)
    requires IsCanonical(bytes)
    ensures IsRoot(bytes)
  {
    forall j | 0 <= j < |Components(bytes)| ensures PieceError(Components(bytes)[j]).None? {
      assert ComponentError(Components(bytes)[j], j).None?;
    }
  }

  /** Parsing an accepted path yields names, no more than allowed, and joining them gives the path back. */
  lemma ParsedPathJoinsBack(bytes: string)
    requires IsCanonical(bytes)
    ensures |Components(bytes)| <= MAX_COMPONENTS
    ensures forall c :: c in Components(bytes) ==> IsName(c)
    ensures Absolute(Components(bytes)) == bytes
  {
    var cs := Components(bytes);
    CanonicalIsRoot(bytes);
    RootJoinsBack(bytes);
    assert |cs| > MAX_COMPONENTS ==> ComponentError(cs[MAX_COMPONENTS], MAX_COMPONENTS).Some?;
  }

  /** Joining any number of names gives a canonical absolute path, and splitting it gives the names back. */
  lemma NamesMakeRoot(components: seq<string>)
    requires forall c :: c in components ==> IsName(c)
    ensures IsRoot(Absolute(components)) && Components(Absolute(components)) == components
  {
    var bytes := Absolute(components);
    if components != [] {
      var s := Join(components, '/');
      assert bytes[1..] == s;
      JoinOfNames(components);
      SplitJoin(components, '/');
      forall i | 0 <= i < |bytes| - 1 ensures !(bytes[i] == '/' && bytes[i + 1] == '/') {
        if i > 0 { assert bytes[i] == s[i - 1] && bytes[i + 1] == s[i]; }
      }
      forall j | 0 <= j < |components| ensures PieceError(components[j]).None? { assert IsName(components[j]); }
    }
  }

  /** Within the limits that is an accepted path, and parsing it gives the names back. */
  lemma JoinedNamesParseBack(components: seq<string>)
    requires |components| <= MAX_COMPONENTS && |Absolute(components)| <= MAX_LOCATOR_BYTES
    requires forall c :: c in components ==> IsName(c)
    ensures IsCanonical(Absolute(components)) && Components(Absolute(components)) == components
  {
    NamesMakeRoot(components);
  }

  lemma {:induction false} JoinOfNames(components: seq<string>)
    requires components != [] && forall c :: c in components ==> IsName(c)
    ensures var s := Join(components, '/');
            s != [] && s[0] != '/' && s[|s| - 1] != '/' && '\0' !in s && !HasDuplicateSeparator(s)
  {
    assert IsName(components[0]);
    if |components| > 1 {
      JoinOfNames(components[1..]);
      var head, tail := components[0], Join(components[1..], '/');
      var s := head + ['/'] + tail;
      forall i | 0 <= i < |s| - 1 ensures !(s[i] == '/' && s[i + 1] == '/') {
        if i > |head| {
          assert s[i] == tail[i - |head| - 1] && s[i + 1] == tail[i - |head|];
        }
      }
    }
  }

  // ---- Locators and the prefix test -----------------------------------------------------------------------

  /** A plan's locator: an absolute root and at least one member name below it. */
  datatype Locator = Locator(root: string, relative: seq<string>)

  /** The form of a locator. Sizes and counts are limited by its constructor, but nothing below needs the limits. */
  ghost predicate IsLocator(l: Locator) {
    IsRoot(l.root) && l.relative != [] && forall c :: c in l.relative ==> IsName(c)
  }

  /** The byte path that the locator names. */
  function FullPath(l: Locator): string {
    (if l.root == "/" then "/" else l.root + "/") + Join(l.relative, '/')
  }

  /** `is_prefix_of_locator`. */
  predicate IsPrefixOfLocator(p: CanonicalPath, l: Locator) {
    p.components == []
    || var candidate := Components(l.root) + l.relative;
       && |p.components| <= |candidate|
       && forall i :: 0 <= i < |p.components| ==> p.components[i] == candidate[i]
  }

  /** The component test is the byte test: the reserved path itself, or it continued by a separator. */
  lemma PrefixTestIsBytePrefix(p: CanonicalPath, l: Locator)
    requires IsCanonical(p.bytes) && p.components == Components(p.bytes) && IsLocator(l)
    ensures IsPrefixOfLocator(p, l)
            <==> p.bytes == "/" || FullPath(l) == p.bytes || p.bytes + "/" <= FullPath(l)
  {
    ParsedPathJoinsBack(p.bytes);
    FullPathIsAbsolute(l);
    var candidate := Components(l.root) + l.relative;
    if p.bytes != "/" {
      var r, c := Join(p.components, '/'), Join(candidate, '/');
      ListPrefixIsTextPrefix(p.components, candidate);
      assert FullPath(l)[1..] == c && p.bytes[1..] == r;
      assert r + "/" <= c <==> p.bytes + "/" <= FullPath(l) by {
        assert p.bytes + "/" == "/" + (r + "/");
      }
    }
  }

  lemma FullPathIsAbsolute(l: Locator)
    requires IsLocator(l)
    ensures var candidate := Components(l.root) + l.relative;
            && FullPath(l) == Absolute(candidate)
            && forall c :: c in candidate ==> IsName(c)
  {
    RootJoinsBack(l.root);
    if l.root == "/" {
      assert Components(l.root) + l.relative == l.relative;
    } else {
      JoinAppend(Components(l.root), l.relative, '/');
    }
  }

  lemma ListPrefixIsTextPrefix(reserved: seq<string>, candidate: seq<string>)
    requires reserved != [] && candidate != []
    requires forall c :: c in reserved ==> IsName(c)
    requires forall c :: c in candidate ==> IsName(c)
    ensures reserved <= candidate
            <==> Join(candidate, '/') == Join(reserved, '/')
                 || Join(reserved, '/') + "/" <= Join(candidate, '/')
  {
    var r, c := Join(reserved, '/'), Join(candidate, '/');
    if reserved <= candidate {
      var rest := candidate[|reserved|..];
      assert candidate == reserved + rest;
      if rest != [] {
        JoinAppend(reserved, rest, '/');
      } else {
        assert candidate == reserved;
      }
    }
    SplitJoin(reserved, '/');
    SplitJoin(candidate, '/');
    if r + "/" <= c {
      var rest := c[|r| + 1..];
      assert c == r + ['/'] + rest;
      SplitAtSeparator(r, rest);
      assert candidate == reserved + Split(rest, '/');
    }
  }

  lemma {:induction false} SplitAtSeparator(a: string, b: string)
    ensures Split(a + ['/'] + b, '/') == Split(a, '/') + Split(b, '/')
  {
    var s := a + ['/'] + b;
    if a == [] {
      assert s[1..] == b;
    } else {
      var tail := a[1..];
      assert s[0] == a[0] && s[1..] == tail + ['/'] + b;
      SplitAtSeparator(tail, b);
      PiecesApart(a[0], Split(tail, '/'), Split(b, '/'));
    }
  }

  lemma PiecesApart(c: char, front: seq<string>, back: seq<string>)
    requires front != []
    ensures (front + back)[0] == front[0] && (front + back)[1..] == front[1..] + back
    ensures [""] + (front + back) == ([""] + front) + back
    ensures [[c] + front[0]] + (front[1..] + back) == ([[c] + front[0]] + front[1..]) + back
  {
  }

  // ---- Constructing locators ------------------------------------------------------------------------------

  datatype LocatorError =
    | EmptyRoot | RootTooLong | RootNotAbsolute | RootContainsNul | EmptyMember | TooManyMembers | EmptyComponent
    | AbsoluteMember | ComponentContainsNul | SlashInComponent | RootForm(error: PathError)
    | MemberForm(error: PathError) | TotalPathTooLong

  /** The first component that fails, from position `i` on. */
  function FirstPieceError(pieces: seq<string>, i: nat): (e: Option<PathError>)
    requires i <= |pieces|
    ensures e.None? <==> forall j :: i <= j < |pieces| ==> PieceError(pieces[j]).None?
    decreases |pieces| - i
  {
    if i == |pieces| then None
    else if PieceError(pieces[i]).Some? then PieceError(pieces[i])
    else FirstPieceError(pieces, i + 1)
  }

  /** `validate_canonical_root`, as a function. */
  function RootError(root: string): (e: Option<LocatorError>) {
    if root == "" then Some(EmptyRoot)
    else if |root| > MAX_ROOT_BYTES then Some(RootTooLong)
    else if root[0] != '/' then Some(RootNotAbsolute)
    else if '\0' in root then Some(RootContainsNul)
    else if |root| > 1 && root[|root| - 1] == '/' then Some(RootForm(TrailingSeparator))
    else if HasDuplicateSeparator(root) then Some(RootForm(DuplicateSeparator))
    else
      var piece := FirstPieceError(Split(root[1..], '/'), 0);
      if piece.Some? then Some(RootForm(piece.value)) else None
  }

  /** A root of one separator has one empty piece, about which there is nothing to say. */
  lemma RootErrorExactly(root: string)
    ensures RootError(root).None? <==> IsRoot(root) && |root| <= MAX_ROOT_BYTES
  {
    if root == "/" {
      assert Split(root[1..], '/') == [""] && PieceError("").None?;
    } else if root != "" {
      assert Components(root) == Split(root[1..], '/');
    }
  }

  /** `validate_relative_component`. */
  function MemberError(c: string, first: bool): (e: Option<LocatorError>)
    ensures e.None? <==> IsName(c)
  {
    if c == "" then Some(EmptyComponent)
    else if first && c[0] == '/' then Some(AbsoluteMember)
    else if '\0' in c then Some(ComponentContainsNul)
    else if '/' in c then Some(SlashInComponent)
    else if PieceError(c).Some? then Some(MemberForm(PieceError(c).value))
    else None
  }

  /** The octets of root, separators and the first `i` members. */
  function PathBytes(root: string, relative: seq<string>, i: nat): nat
    requires i <= |relative|
  {
    if i == 0 then |root|
    else PathBytes(root, relative, i - 1) + (if root != "/" || i > 1 then 1 else 0) + |relative[i - 1]|
  }

  /** The first complaint about the members from position `i` on. */
  function MembersError(root: string, relative: seq<string>, i: nat): (e: Option<LocatorError>)
    requires i <= |relative|
    decreases |relative| - i
  {
    if i == |relative| then None
    else if i == MAX_COMPONENTS then Some(TooManyMembers)
    else if MemberError(relative[i], i == 0).Some? then MemberError(relative[i], i == 0)
    else if PathBytes(root, relative, i + 1) > MAX_LOCATOR_BYTES then Some(TotalPathTooLong)
    else MembersError(root, relative, i + 1)
  }

  function LocatorRefusal(root: string, relative: seq<string>): (e: Option<LocatorError>) {
    if RootError(root).Some? then RootError(root)
    else if MembersError(root, relative, 0).Some? then MembersError(root, relative, 0)
    else if relative == [] then Some(EmptyMember)
    else None
  }

  /** `UnixLocalFileLocatorV1::new`, with the total length it keeps. */
  method NewLocator(root: string, relative: seq<string>) returns (r: Result<(Locator, nat), LocatorError>)
    ensures r.Ok? <==> Constructible(Locator(root, relative))
    ensures r.Ok? ==> r.value == (Locator(root, relative), |FullPath(Locator(root, relative))|)
    ensures r.Err? ==> LocatorRefusal(root, relative) == Some(r.error)
  {
    ConstructibleExactly(root, relative);
    var rootError := RootError(root);
    if rootError.Some? { return Err(rootError.value); }
    var members: seq<string> := [];
    var total := |root|;
    for i := 0 to |relative|
      invariant members == relative[..i] && total == PathBytes(root, relative, i)
      invariant MembersError(root, relative, 0) == MembersError(root, relative, i)
    {
      if |members| == MAX_COMPONENTS { return Err(TooManyMembers); }
      var memberError := MemberError(relative[i], members == []);
      if memberError.Some? { return Err(memberError.value); }
      total := total + (if root != "/" || members != [] then 1 else 0) + |relative[i]|;
      if total > MAX_LOCATOR_BYTES { return Err(TotalPathTooLong); }
      members := members + [relative[i]];
    }
    assert relative[..|relative|] == relative;
    if members == [] { return Err(EmptyMember); }
    PathBytesIsLength(root, relative, |relative|);
    return Ok((Locator(root, members), total));
  }

  /** What the constructor accepts. */
  ghost predicate Constructible(l: Locator) {
    IsLocator(l) && |l.root| <= MAX_ROOT_BYTES && |l.relative| <= MAX_COMPONENTS && |FullPath(l)| <= MAX_LOCATOR_BYTES
  }

  lemma {:induction false} PathBytesIsLength(root: string, relative: seq<string>, i: nat)
    requires 0 < i <= |relative|
    ensures PathBytes(root, relative, i) == |FullPath(Locator(root, relative[..i]))|
    decreases i
  {
    assert relative[..i] == relative[..i - 1] + [relative[i - 1]];
    if i > 1 {
      PathBytesIsLength(root, relative, i - 1);
      JoinAppend(relative[..i - 1], [relative[i - 1]], '/');
    }
  }

  lemma {:induction false} PathBytesGrow(root: string, relative: seq<string>, i: nat, j: nat)
    requires i <= j <= |relative|
    ensures PathBytes(root, relative, i) <= PathBytes(root, relative, j)
    decreases j - i
  {
    if i < j { PathBytesGrow(root, relative, i, j - 1); }
  }

  predicate MemberFits(root: string, relative: seq<string>, k: nat)
    requires k < |relative|
  {
    IsName(relative[k]) && PathBytes(root, relative, k + 1) <= MAX_LOCATOR_BYTES
  }

  lemma {:induction false} MembersErrorExactly(root: string, relative: seq<string>, i: nat)
    requires i <= |relative| && i <= MAX_COMPONENTS
    ensures MembersError(root, relative, i).None?
       <==> |relative| <= MAX_COMPONENTS
            && forall k :: i <= k < |relative| ==> MemberFits(root, relative, k)
    decreases |relative| - i
  {
    if i < |relative| && i < MAX_COMPONENTS {
      MembersErrorExactly(root, relative, i + 1);
      assert MemberFits(root, relative, i)
        <==> MemberError(relative[i], i == 0).None? && PathBytes(root, relative, i + 1) <= MAX_LOCATOR_BYTES;
    }
  }

  /** The constructor's checks, member by member, come to this. */
  lemma ConstructibleExactly(root: string, relative: seq<string>)
    ensures LocatorRefusal(root, relative).None? <==> Constructible(Locator(root, relative))
  {
    RootErrorExactly(root);
    MembersErrorExactly(root, relative, 0);
    if relative != [] {
      assert relative[..|relative|] == relative;
      PathBytesIsLength(root, relative, |relative|);
      forall k | 0 <= k < |relative| && Constructible(Locator(root, relative)) ensures MemberFits(root, relative, k) {
        PathBytesGrow(root, relative, k + 1, |relative|);
      }
      if LocatorRefusal(root, relative).None? {
        assert MemberFits(root, relative, |relative| - 1);
        forall c | c in relative ensures IsName(c) {
          var k :| 0 <= k < |relative| && relative[k] == c;
          assert MemberFits(root, relative, k);
        }
      }
    }
  }

  // ---- Accepted paths and locators, spelled out -----------------------------------------------------------

  /** One to 255 octets, no separator, no NUL, and neither of the two dot names. */
  ghost predicate ProperName(c: string) {
    1 <= |c| <= 255 && (forall i :: 0 <= i < |c| ==> c[i] != '/' && c[i] as int != 0) && c != "." && c != ".."
  }

  lemma ProperExactly(c: string)
    ensures IsName(c) <==> ProperName(c)
  {
    if ProperName(c) { assert '/' !in c && '\0' !in c; }
    if IsName(c) {
      forall i | 0 <= i < |c| ensures c[i] != '/' && c[i] as int != 0 { assert c[i] in c; }
    }
  }

  /** The text is the separator followed by these names, separated. */
  ghost predicate Spells(bytes: string, names: seq<string>) {
    bytes == "/" + Join(names, '/') && forall i :: 0 <= i < |names| ==> ProperName(names[i])
  }

  lemma AllProper(names: seq<string>)
    ensures (forall c :: c in names ==> IsName(c)) <==> forall i :: 0 <= i < |names| ==> ProperName(names[i])
  {
    forall c ensures IsName(c) <==> ProperName(c) { ProperExactly(c); }
    if forall i :: 0 <= i < |names| ==> ProperName(names[i]) {
      forall c | c in names ensures IsName(c) { var i :| 0 <= i < |names| && names[i] == c; }
    }
  }

  /** The accepted paths are the texts of up to 65,536 octets that spell at most 256 proper names. */
  lemma CanonicalExactly(bytes: string)
    ensures IsCanonical(bytes) <==> |bytes| <= 65_536 && exists names :: |names| <= 256 && Spells(bytes, names)
    ensures IsCanonical(bytes) ==> Spells(bytes, Components(bytes))
  {
    if IsCanonical(bytes) {
      ParsedPathJoinsBack(bytes);
      AllProper(Components(bytes));
    }
    if |bytes| <= 65_536 {
      if names :| |names| <= 256 && Spells(bytes, names) {
        AllProper(names);
        JoinedNamesParseBack(names);
      }
    }
  }

  /** Locators are made of a root that spells names and one to 256 proper names, within both limits. */
  lemma LocatorExactly(l: Locator)
    ensures Constructible(l)
       <==> && (exists names :: Spells(l.root, names)) && |l.root| <= 4096
            && 1 <= |l.relative| <= 256 && (forall i :: 0 <= i < |l.relative| ==> ProperName(l.relative[i]))
            && |(if l.root == "/" then "" else l.root) + "/" + Join(l.relative, '/')| <= 65_536
  {
    AllProper(l.relative);
    RootExactly(l.root);
    FullPathLength(l);
  }

  lemma RootExactly(root: string)
    ensures IsRoot(root) <==> exists names :: Spells(root, names)
  {
    if IsRoot(root) {
      RootJoinsBack(root);
      AllProper(Components(root));
      assert Spells(root, Components(root));
    }
    if names :| Spells(root, names) {
      AllProper(names);
      NamesMakeRoot(names);
    }
  }

  lemma FullPathLength(l: Locator)
    ensures FullPath(l) == (if l.root == "/" then "" else l.root) + "/" + Join(l.relative, '/')
  {
  }

  /** What each error of the path parser says is so. */
  ghost predicate PathFault(bytes: string, error: PathError) {
    match error
    case Empty => |bytes| == 0
    case TooLong => |bytes| > 65_536
    case NotAbsolute => |bytes| > 0 && bytes[0] != '/'
    case ContainsNul => exists i :: 0 <= i < |bytes| && bytes[i] as int == 0
    case TrailingSeparator => |bytes| > 1 && bytes[|bytes| - 1] == '/'
    case DuplicateSeparator => HasDuplicateSeparator(bytes)
    case TooManyComponents => |Components(bytes)| > 256
    case DotComponent => "." in Components(bytes)
    case DotDotComponent => ".." in Components(bytes)
    case ComponentTooLong => exists c :: c in Components(bytes) && |c| > 255
  }

  lemma PathErrorsAreTrue(bytes: string)
    requires !IsCanonical(bytes)
    ensures PathFault(bytes, FirstError(bytes))
  {
    if '\0' in bytes { var i :| 0 <= i < |bytes| && bytes[i] == '\0'; }
    var cs := Components(bytes);
    if FirstComponentError(cs, 0).Some? {
      var i := FailingComponent(cs, 0);
      assert cs[i] in cs;
    }
  }

  lemma {:induction false} FailingComponent(pieces: seq<string>, i: nat) returns (k: nat)
    requires i <= |pieces| && FirstComponentError(pieces, i).Some?
    ensures i <= k < |pieces| && FirstComponentError(pieces, i) == ComponentError(pieces[k], k)
    decreases |pieces| - i
  {
    if ComponentError(pieces[i], i).Some? {
      k := i;
    } else {
      k := FailingComponent(pieces, i + 1);
    }
  }
}
