/** Unix paths as `std::path` sees them: `Path::components` and `PathBuf::push`, the two
    standard-library operations that `process_get` (quicr/examples/server.rs:182-194)
    builds its traversal check on. Paths are byte strings, as an `OsStr` is on Unix. */
module Paths {
  import Utf8

  type byte = Utf8.byte

  const Slash: byte := 0x2F
  const Dot: byte := 0x2E

  /** `std::path::Component` on Unix (the Windows-only `Prefix` never occurs). */
  datatype Component = RootDir | CurDir | ParentDir | Normal(name: seq<byte>)

  /** The `{:?}` text of a component other than `Normal`. */
  function Debug(c: Component): string
    requires !c.Normal?
  {
    match c
    case RootDir => "RootDir"
    case CurDir => "CurDir"
    case ParentDir => "ParentDir"
  }

  /** A name that can stand as a `Normal` component: non-empty, without '/', and not "."
      or "..". */
  predicate NormalName(n: seq<byte>)
  {
    n != [] && n != [Dot] && n != [Dot, Dot] && NoSlash(n)
  }

  predicate NoSlash(n: seq<byte>)
  {
    forall i :: 0 <= i < |n| ==> n[i] != Slash
  }

  /** The index of the first '/' in `p`, or `|p|` when there is none. */
  function FirstSlash(p: seq<byte>): (i: nat)
    ensures i <= |p|
    ensures i < |p| ==> p[i] == Slash
    ensures forall j :: 0 <= j < i ==> p[j] != Slash
  {
    if p == [] then 0
    else if p[0] == Slash then 0
    else 1 + FirstSlash(p[1..])
  }

  /** The text of `p` between separators: `p` split at every '/'. */
  function Pieces(p: seq<byte>): (r: seq<seq<byte>>)
    ensures |r| >= 1
    decreases |p|
  {
    var i := FirstSlash(p);
    if i == |p| then [p] else [p[..i]] + Pieces(p[i + 1..])
  }

  /** `pieces` joined with '/': the inverse of `Pieces`. */
  function JoinSlash(pieces: seq<seq<byte>>): seq<byte>
    requires |pieces| >= 1
  {
    if |pieces| == 1 then pieces[0] else pieces[0] + [Slash] + JoinSlash(pieces[1..])
  }

  /** What one piece contributes: nothing for an empty piece (a repeated or trailing
      '/') or for ".", `ParentDir` for "..", and otherwise a `Normal` component. */
  function Classify(piece: seq<byte>): (r: seq<Component>)
  {
    if piece == [] || piece == [Dot] then []
    else if piece == [Dot, Dot] then [ParentDir]
    else [Normal(piece)]
  }

  function ClassifyAll(pieces: seq<seq<byte>>): seq<Component>
  {
    if pieces == [] then [] else Classify(pieces[0]) + ClassifyAll(pieces[1..])
  }

  /** The components after the root marker or the leading ".". */
  function BodyComponents(p: seq<byte>): seq<Component>
  {
    ClassifyAll(Pieces(p))
  }

  predicate HasRoot(p: seq<byte>) { |p| > 0 && p[0] == Slash }

  /** A leading "." is kept, as `CurDir`, only in a relative path that is "." or starts
      with "./". */
  predicate IncludeCurDir(p: seq<byte>)
  {
    !HasRoot(p) && |p| > 0 && p[0] == Dot && (|p| == 1 || p[1] == Slash)
  }

  /** `Path::components` on Unix. */
  function Components(p: seq<byte>): seq<Component>
  {
    (if HasRoot(p) then [RootDir] else [])
    + (if IncludeCurDir(p) then [CurDir] else [])
    + BodyComponents(p)
  }

  /** `PathBuf::push` of a relative name: a '/' goes in between unless the buffer is
      empty or already ends with one. */
  function Push(buf: seq<byte>, name: seq<byte>): seq<byte>
  {
    if |buf| > 0 && buf[|buf| - 1] != Slash then buf + [Slash] + name else buf + name
  }

  /** `root` with each name pushed in turn. */
  function Resolve(root: seq<byte>, names: seq<seq<byte>>): seq<byte>
  {
    if names == [] then root else Push(Resolve(root, names[..|names| - 1]), names[|names| - 1])
  }

  // ---- splitting and joining ----

  lemma {:induction false} JoinSlashPieces(p: seq<byte>)
    ensures JoinSlash(Pieces(p)) == p
    decreases |p|
  {
    var i := FirstSlash(p);
    if i < |p| {
      var head, rest := p[..i], Pieces(p[i + 1..]);
      assert Pieces(p) == [head] + rest;
      JoinSlashPieces(p[i + 1..]);
      calc {
        JoinSlash(Pieces(p));
        { assert ([head] + rest)[1..] == rest; }
        head + [Slash] + JoinSlash(rest);
        head + [Slash] + p[i + 1..];
        { assert p[i] == Slash; }
        p;
      }
    }
  }

  lemma {:induction false} PiecesJoinSlash(pieces: seq<seq<byte>>)
    requires |pieces| >= 1
    requires forall k :: 0 <= k < |pieces| ==> NoSlash(pieces[k])
    ensures Pieces(JoinSlash(pieces)) == pieces
    decreases |pieces|
  {
    var p := JoinSlash(pieces);
    if |pieces| == 1 {
      FirstSlashNone(p);
    } else {
      var rest := JoinSlash(pieces[1..]);
      assert p == pieces[0] + [Slash] + rest;
      FirstSlashAt(pieces[0], rest);
      assert p[..|pieces[0]|] == pieces[0];
      assert p[|pieces[0]| + 1..] == rest;
      PiecesJoinSlash(pieces[1..]);
    }
  }

  lemma FirstSlashNone(p: seq<byte>)
    requires NoSlash(p)
    ensures FirstSlash(p) == |p|
  {
  }

  lemma FirstSlashAt(a: seq<byte>, rest: seq<byte>)
    requires NoSlash(a)
    ensures FirstSlash(a + [Slash] + rest) == |a|
  {
    var p := a + [Slash] + rest;
    assert p[|a|] == Slash;
    assert forall j :: 0 <= j < |a| ==> p[j] == a[j];
  }

  lemma {:induction false} ClassifyAllConcat(a: seq<seq<byte>>, b: seq<seq<byte>>)
    ensures ClassifyAll(a + b) == ClassifyAll(a) + ClassifyAll(b)
    decreases |a|
  {
    if a == [] {
      assert a + b == b;
    } else {
      assert (a + b)[0] == a[0] && (a + b)[1..] == a[1..] + b;
      ClassifyAllConcat(a[1..], b);
    }
  }

  // ---- what the components say about the text ----

  /** The body holds only `Normal` and `ParentDir` components, and a `ParentDir` exactly
      where a piece is "..". */
  lemma {:induction false} ClassifyAllKinds(pieces: seq<seq<byte>>)
    ensures forall c :: c in ClassifyAll(pieces) ==> c.Normal? || c.ParentDir?
    ensures ParentDir in ClassifyAll(pieces) <==> [Dot, Dot] in pieces
    ensures forall c :: c in ClassifyAll(pieces) && c.Normal? ==> c.name in pieces
    decreases |pieces|
  {
    if pieces != [] {
      ClassifyAllKinds(pieces[1..]);
      assert pieces == [pieces[0]] + pieces[1..];
    }
  }

  /** A `Normal` component of a body always has a normal name. */
  lemma ClassifyAllNormalNames(p: seq<byte>)
    ensures forall c :: c in BodyComponents(p) && c.Normal? ==> NormalName(c.name)
  {
    PiecesHaveNoSlash(p);
    ClassifyKeepsNormalNames(Pieces(p));
  }

  lemma {:induction false} ClassifyKeepsNormalNames(pieces: seq<seq<byte>>)
    requires forall k :: 0 <= k < |pieces| ==> NoSlash(pieces[k])
    ensures forall c :: c in ClassifyAll(pieces) && c.Normal? ==> NormalName(c.name)
    decreases |pieces|
  {
    if pieces != [] {
      ClassifyKeepsNormalNames(pieces[1..]);
    }
  }

  lemma {:induction false} PiecesHaveNoSlash(p: seq<byte>)
    ensures forall k :: 0 <= k < |Pieces(p)| ==> NoSlash(Pieces(p)[k])
    decreases |p|
  {
    var i := FirstSlash(p);
    if i < |p| {
      PiecesHaveNoSlash(p[i + 1..]);
      assert Pieces(p)[1..] == Pieces(p[i + 1..]);
    }
  }

  /** The first component is the root marker exactly when the path starts with '/',
      and the rest are then the body components. */
  lemma ComponentsRooted(p: seq<byte>)
    ensures |Components(p)| > 0 && Components(p)[0] == RootDir <==> HasRoot(p)
    ensures HasRoot(p) ==> Components(p)[1..] == BodyComponents(p)
  {
    ClassifyAllKinds(Pieces(p));
    if !HasRoot(p) && !IncludeCurDir(p) && |BodyComponents(p)| > 0 {
      assert BodyComponents(p)[0] in BodyComponents(p);
    }
  }

  /** The names a body keeps: its pieces in order, without the empty ones and ".". */
  function KeptNames(pieces: seq<seq<byte>>): seq<seq<byte>>
  {
    if pieces == [] then []
    else if pieces[0] == [] || pieces[0] == [Dot] then KeptNames(pieces[1..])
    else [pieces[0]] + KeptNames(pieces[1..])
  }

  /** The names of a list of `Normal` components. */
  function Names(cs: seq<Component>): (r: seq<seq<byte>>)
    requires forall i :: 0 <= i < |cs| ==> cs[i].Normal?
    ensures |r| == |cs| && forall i :: 0 <= i < |cs| ==> r[i] == cs[i].name
  {
    seq(|cs|, i requires 0 <= i < |cs| && cs[i].Normal? => cs[i].name)
  }

  /** Without a "..", the body's components are the kept pieces in input order. */
  lemma {:induction false} ClassifyAllNames(pieces: seq<seq<byte>>)
    requires [Dot, Dot] !in pieces
    ensures forall i :: 0 <= i < |ClassifyAll(pieces)| ==> ClassifyAll(pieces)[i].Normal?
    ensures Names(ClassifyAll(pieces)) == KeptNames(pieces)
    decreases |pieces|
  {
    if pieces != [] {
      var head, rest := Classify(pieces[0]), pieces[1..];
      assert pieces[0] in pieces;
      assert pieces == [pieces[0]] + rest;
      ClassifyAllNames(rest);
      var tail := ClassifyAll(rest);
      assert ClassifyAll(pieces) == head + tail;
      NamesConcat(head, tail);
    }
  }

  lemma NamesConcat(a: seq<Component>, b: seq<Component>)
    requires forall i :: 0 <= i < |a| ==> a[i].Normal?
    requires forall i :: 0 <= i < |b| ==> b[i].Normal?
    ensures forall i :: 0 <= i < |a + b| ==> (a + b)[i].Normal?
    ensures Names(a + b) == Names(a) + Names(b)
  {
  }

  /** Pieces of normal names classify back to those names. */
  lemma {:induction false} ClassifyNormalNames(names: seq<seq<byte>>)
    requires forall k :: 0 <= k < |names| ==> NormalName(names[k])
    ensures ClassifyAll(names) == seq(|names|, k requires 0 <= k < |names| => Normal(names[k]))
    decreases |names|
  {
    if names != [] {
      ClassifyNormalNames(names[1..]);
    }
  }

  // ---- what pushing builds ----

  /** How `Resolve` lays out its result: the root, one '/' when the root needs it, and
      the names joined with '/'. */
  function Separator(root: seq<byte>, names: seq<seq<byte>>): seq<byte>
  {
    if |root| > 0 && root[|root| - 1] != Slash && |names| > 0 then [Slash] else []
  }

  function Suffix(names: seq<seq<byte>>): seq<byte>
  {
    if names == [] then [] else JoinSlash(names)
  }

  lemma {:induction false} JoinSlashSnoc(names: seq<seq<byte>>, n: seq<byte>)
    requires |names| >= 1
    ensures JoinSlash(names + [n]) == JoinSlash(names) + [Slash] + n
    decreases |names|
  {
    if |names| > 1 {
      assert (names + [n])[1..] == names[1..] + [n];
      JoinSlashSnoc(names[1..], n);
    }
  }

  lemma {:induction false} JoinSlashEndsWithLast(names: seq<seq<byte>>)
    requires |names| >= 1 && names[|names| - 1] != []
    ensures var j := JoinSlash(names); |j| > 0 && j[|j| - 1] == names[|names| - 1][|names[|names| - 1]| - 1]
    decreases |names|
  {
    if |names| > 1 {
      JoinSlashEndsWithLast(names[1..]);
    }
  }

  /** Pushing never rewrites what is already there: `root` stays a prefix, whatever the
      names. */
  lemma {:induction false} ResolveKeepsRoot(root: seq<byte>, names: seq<seq<byte>>)
    ensures |root| <= |Resolve(root, names)| && Resolve(root, names)[..|root|] == root
    decreases |names|
  {
    if names != [] {
      var init := names[..|names| - 1];
      ResolveKeepsRoot(root, init);
      var r := Resolve(root, init);
      var t := Push(r, names[|names| - 1]);
      assert t[..|r|] == r;
      assert t[..|root|] == r[..|root|];
    }
  }

  /** One more name pushed onto a root that already has names after it adds '/' and
      the name. */
  lemma ResolveLayoutSnoc(root: seq<byte>, init: seq<seq<byte>>, n: seq<byte>)
    requires |init| >= 1 && forall k :: 0 <= k < |init| ==> NormalName(init[k])
    requires Resolve(root, init) == root + Separator(root, init) + JoinSlash(init)
    ensures Resolve(root, init + [n]) == root + Separator(root, init) + JoinSlash(init + [n])
  {
    var names := init + [n];
    assert names[..|names| - 1] == init;
    var j := JoinSlash(init);
    JoinSlashEndsWithLast(init);
    JoinSlashSnoc(init, n);
    var r := Resolve(root, init);
    var last := init[|init| - 1];
    assert last[|last| - 1] != Slash;
    assert r[|r| - 1] == j[|j| - 1];
    assert Resolve(root, names) == Push(r, n) == r + [Slash] + n;
    var sep := Separator(root, init);
    assert r + [Slash] + n == root + sep + (j + [Slash] + n);
  }

  lemma {:induction false} ResolveLayout(root: seq<byte>, names: seq<seq<byte>>)
    requires forall k :: 0 <= k < |names| ==> NormalName(names[k])
    ensures Resolve(root, names) == root + Separator(root, names) + Suffix(names)
    decreases |names|
  {
    if names == [] {
      assert root + [] + [] == root;
    } else {
      var init, n := names[..|names| - 1], names[|names| - 1];
      assert names == init + [n];
      if init == [] {
        assert Resolve(root, names) == Push(root, n);
        assert Suffix(names) == n;
      } else {
        ResolveLayout(root, init);
        ResolveLayoutSnoc(root, init, n);
        assert Separator(root, names) == Separator(root, init);
      }
    }
  }

  /** The traversal guarantee: `Resolve` keeps `root` as a prefix, and what it adds
      after the root splits back into exactly the pushed names, each one normal, so no
      `..` can appear in it. */
  lemma ResolveIsDescendant(root: seq<byte>, names: seq<seq<byte>>)
    requires forall k :: 0 <= k < |names| ==> NormalName(names[k])
    ensures |root| <= |Resolve(root, names)| && Resolve(root, names)[..|root|] == root
    ensures BodyComponents(Resolve(root, names)[|root|..])
         == seq(|names|, k requires 0 <= k < |names| => Normal(names[k]))
  {
    var r, sep, suffix := Resolve(root, names), Separator(root, names), Suffix(names);
    ResolveLayout(root, names);
    assert r == root + (sep + suffix);
    assert r[..|root|] == root;
    assert r[|root|..] == sep + suffix;
    SuffixComponents(sep, names);
  }

  lemma SuffixComponents(sep: seq<byte>, names: seq<seq<byte>>)
    requires sep == [] || sep == [Slash]
    requires forall k :: 0 <= k < |names| ==> NormalName(names[k])
    ensures BodyComponents(sep + Suffix(names))
         == seq(|names|, k requires 0 <= k < |names| => Normal(names[k]))
  {
    var suffix := Suffix(names);
    if sep == [Slash] {
      BodyAfterSlash(suffix);
    } else {
      assert sep + suffix == suffix;
    }
    ClassifyNormalNames(names);
    if names == [] {
      assert Pieces(suffix) == [[]];
    } else {
      PiecesJoinSlash(names);
    }
  }

  /** A leading '/' adds only an empty piece, which contributes no component. */
  lemma BodyAfterSlash(p: seq<byte>)
    ensures BodyComponents([Slash] + p) == BodyComponents(p)
  {
    var q := [Slash] + p;
    assert FirstSlash(q) == 0;
    assert q[1..] == p;
    assert Pieces(q) == [[]] + Pieces(p);
    assert ClassifyAll([[]] + Pieces(p))[..] == Classify([]) + ClassifyAll(Pieces(p));
  }
}
