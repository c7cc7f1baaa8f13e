// Slash-separated names, their lexical normal form (the rules of path.Clean),
// SafeJoin of internal/tarstream/tarstream.go and Rel of internal/mirror/mirror.go,
// against Walk: where a directory walk with the same components ends.

module Paths {
  type Path = seq<string>

  datatype NameError =
    | EmptyName
    | NulInName
    | BackslashInName
    | AbsoluteName
    | EscapesRoot
    | MirrorsRoot

  datatype NameResult = Ok(name: string) | Err(error: NameError)

  // ---------------------------------------------------------------- strings

  /** The pieces between the slashes of s; "" has the single piece "". */
  function Split(s: string): (cs: Path)
    ensures |cs| >= 1
    ensures forall c <- cs :: '/' !in c
  {
    if s == "" then
      [""]
    else
      var rest := Split(s[1..]);
      if s[0] == '/' then [""] + rest else [[s[0]] + rest[0]] + rest[1..]
  }

  function Join(cs: Path): string
  {
    if cs == [] then "" else if |cs| == 1 then cs[0] else cs[0] + "/" + Join(cs[1..])
  }

  predicate HasPrefix(s: string, prefix: string)
  {
    prefix <= s
  }

  lemma SplitUnfolds(s: string)
    ensures s == "" ==> Split(s) == [""]
    ensures s != "" ==>
              var rest := Split(s[1..]);
              Split(s) == if s[0] == '/' then [""] + rest else [[s[0]] + rest[0]] + rest[1..]
  {
  }

  lemma JoinUnfolds(c: string, cs: Path)
    ensures Join([c] + cs) == if cs == [] then c else c + "/" + Join(cs)
  {
  }

  lemma {:induction false} JoinSplit(s: string)
    ensures Join(Split(s)) == s
  {
    hide Split, Join;
    SplitUnfolds(s);
    if s == "" {
      JoinUnfolds("", []);
      assert [""] == [""] + [];
    } else {
      var rest := Split(s[1..]);
      JoinSplit(s[1..]);
      JoinUnfolds("", rest);
      JoinUnfolds([s[0]] + rest[0], rest[1..]);
      JoinUnfolds(rest[0], rest[1..]);
      assert rest == [rest[0]] + rest[1..];
      assert s == [s[0]] + s[1..];
      assert ([s[0]] + rest[0]) + "/" + Join(rest[1..]) == [s[0]] + (rest[0] + "/" + Join(rest[1..]));
    }
  }

  lemma FirstPiece(head: string, a: Path, b: Path)
    requires a != []
    ensures [head + (a + b)[0]] + (a + b)[1..] == ([head + a[0]] + a[1..]) + b
    ensures [""] + (a + b) == ([""] + a) + b
  {
    assert (a + b)[1..] == a[1..] + b;
  }

  lemma {:induction false} SplitConcat(a: string, b: string)
    ensures Split(a + "/" + b) == Split(a) + Split(b)
  {
    hide Split;
    var s := a + "/" + b;
    SplitUnfolds(s);
    SplitUnfolds(a);
    if a == "" {
      assert s[0] == '/' && s[1..] == b;
    } else {
      assert s[0] == a[0] && s[1..] == a[1..] + "/" + b;
      SplitConcat(a[1..], b);
      assert |Split(a[1..])| >= 1;
      FirstPiece([a[0]], Split(a[1..]), Split(b));
    }
  }

  lemma {:induction false} SplitWhole(c: string)
    requires '/' !in c
    ensures Split(c) == [c]
  {
    if c != "" {
      assert c[0] in c && '/' !in c[1..];
      SplitWhole(c[1..]);
      assert [c[0]] + c[1..] == c;
    }
  }

  lemma {:induction false} SplitJoin(cs: Path)
    requires cs != []
    requires forall c <- cs :: '/' !in c
    ensures Split(Join(cs)) == cs
  {
    SplitWhole(cs[0]);
    if |cs| > 1 {
      SplitJoin(cs[1..]);
      SplitConcat(cs[0], Join(cs[1..]));
      assert cs == [cs[0]] + cs[1..];
    }
  }

  lemma {:induction false} JoinConcat(a: Path, b: Path)
    requires a != [] && b != []
    ensures Join(a + b) == Join(a) + "/" + Join(b)
  {
    if |a| == 1 {
      assert (a + b)[1..] == b;
    } else {
      assert (a + b)[1..] == a[1..] + b;
      JoinConcat(a[1..], b);
      assert Join(a) + "/" + Join(b) == a[0] + "/" + (Join(a[1..]) + "/" + Join(b));
    }
  }

  /** The index's string test "prefix + '/' starts k" is the tree relation
      "k lies strictly below prefix", for every pair of strings. */
  lemma PrefixIsStrictlyBelow(k: string, prefix: string)
    ensures HasPrefix(k, prefix + "/") <==> Split(prefix) < Split(k)
  {
    hide Split, Join;
    if HasPrefix(k, prefix + "/") {
      var rest := k[|prefix| + 1..];
      SplitConcat(prefix, rest);
      assert k == prefix + "/" + rest;
      assert |Split(rest)| >= 1;
    }
    if Split(prefix) < Split(k) {
      var t := Split(k)[|Split(prefix)|..];
      assert Split(k) == Split(prefix) + t;
      JoinConcat(Split(prefix), t);
      JoinSplit(prefix);
      JoinSplit(k);
    }
  }

  lemma {:induction false} JoinLacks(cs: Path, x: char)
    requires x != '/' && forall c <- cs :: x !in c
    ensures x !in Join(cs)
  {
    if |cs| > 1 {
      assert cs[0] in cs && forall c <- cs[1..] :: c in cs;
      JoinLacks(cs[1..], x);
    } else if |cs| == 1 {
      assert cs[0] in cs;
    }
  }

  lemma SplitInjective(a: string, b: string)
    requires Split(a) == Split(b)
    ensures a == b
  {
    JoinSplit(a);
    JoinSplit(b);
  }

  // ---------------------------------------------------- lexical normalising

  /** A component that stands for a directory entry of its own. */
  predicate Plain(c: string)
  {
    c != "" && c != "." && c != ".." && '/' !in c
  }

  predicate AllPlain(cs: Path)
  {
    forall c <- cs :: Plain(c)
  }

  function CleanStep(rooted: bool, out: Path, c: string): Path
  {
    if c == "" || c == "." then out
    else if c != ".." then out + [c]
    else if out != [] && out[|out| - 1] != ".." then out[..|out| - 1]
    else if rooted then out
    else out + [c]
  }

  function Reduce(rooted: bool, out: Path, cs: Path): Path
  {
    if cs == [] then out
    else CleanStep(rooted, Reduce(rooted, out, cs[..|cs| - 1]), cs[|cs| - 1])
  }

  function Render(rooted: bool, cs: Path): string
  {
    if rooted then "/" + Join(cs) else if cs == [] then "." else Join(cs)
  }

  /** path.Clean */
  function Clean(s: string): string
  {
    if s == "" then "."
    else
      var rooted := s[0] == '/';
      Render(rooted, Reduce(rooted, [], Split(s)))
  }

  /** filepath.Join of two elements, in slash space. */
  function JoinClean(root: string, name: string): string
  {
    if root == "" then Clean(name) else Clean(root + "/" + name)
  }

  function SafeJoin(root: string, name: string): NameResult
  {
    if name == "" then Err(EmptyName)
    else if '\0' in name then Err(NulInName)
    else if '\\' in name then Err(BackslashInName)
    else if name[0] == '/' then Err(AbsoluteName)
    else
      var clean := Clean(name);
      if clean == ".." || HasPrefix(clean, "../") then Err(EscapesRoot)
      else Ok(JoinClean(root, clean))
  }

  // ----------------------------------------------------------- walking

  /** One step of a directory walk; ".." at the top stays at the top. */
  function WalkStep(at: Path, c: string): Path
  {
    if c == "" || c == "." then at
    else if c != ".." then at + [c]
    else if at == [] then at
    else at[..|at| - 1]
  }

  function Walk(at: Path, cs: Path): Path
  {
    if cs == [] then at else WalkStep(Walk(at, cs[..|cs| - 1]), cs[|cs| - 1])
  }

  /** How many levels below its start a walk of cs ends; negative above it. */
  function Depth(cs: Path): int
  {
    if cs == [] then 0
    else
      var c := cs[|cs| - 1];
      Depth(cs[..|cs| - 1]) + (if c == "" || c == "." then 0 else if c == ".." then -1 else 1)
  }

  /** No prefix of the walk is above its start. */
  ghost predicate StaysInside(cs: Path)
  {
    forall k :: 0 <= k <= |cs| ==> NotAbove(cs, k)
  }

  predicate NotAbove(cs: Path, k: nat)
    requires k <= |cs|
  {
    Depth(cs[..k]) >= 0
  }

  lemma StaysInsidePrefix(cs: Path)
    requires cs != []
    ensures StaysInside(cs) <==> StaysInside(cs[..|cs| - 1]) && Depth(cs) >= 0
  {
    hide Depth;
    var init := cs[..|cs| - 1];
    forall k: nat | k <= |init| ensures NotAbove(init, k) == NotAbove(cs, k) {
      assert init[..k] == cs[..k];
    }
    assert NotAbove(cs, |cs|) <==> Depth(cs) >= 0 by { assert cs[..|cs|] == cs; }
  }

  /** The normaliser keeps a leading ".." exactly when some prefix climbs out;
      otherwise its output is the walk, of length Depth. */
  lemma {:induction false} ReduceIsWalk(cs: Path)
    requires forall c <- cs :: '/' !in c
    ensures var out := Reduce(false, [], cs);
            if StaysInside(cs) then AllPlain(out) && out == Walk([], cs) && |out| == Depth(cs)
            else out != [] && out[0] == ".." && forall c <- out :: '/' !in c
  {
    if cs != [] {
      StaysInsidePrefix(cs);
      var init, c := cs[..|cs| - 1], cs[|cs| - 1];
      assert c in cs && forall x <- init :: x in cs;
      ReduceIsWalk(init);
      var w := Reduce(false, [], init);
      if StaysInside(init) && w != [] {
        assert w[|w| - 1] in w;
      }
    } else {
      assert StaysInside(cs);
    }
  }

  lemma {:induction false} WalkFrom(root: Path, cs: Path)
    requires StaysInside(cs)
    ensures |Walk([], cs)| == Depth(cs) && Walk(root, cs) == root + Walk([], cs)
  {
    if cs != [] {
      StaysInsidePrefix(cs);
      var init := cs[..|cs| - 1];
      WalkFrom(root, init);
      assert Depth(cs) >= 0;
      var w := Walk([], init);
      if cs[|cs| - 1] == ".." {
        assert |w| == Depth(init) >= 1;
        assert (root + w)[..|root + w| - 1] == root + w[..|w| - 1];
      }
    }
  }

  lemma {:induction false} PlainWalk(at: Path, cs: Path)
    requires AllPlain(cs)
    ensures Walk(at, cs) == at + cs && Depth(cs) == |cs| && StaysInside(cs)
  {
    if cs != [] {
      var init, c := cs[..|cs| - 1], cs[|cs| - 1];
      assert c in cs && forall x <- init :: x in cs;
      PlainWalk(at, init);
      StaysInsidePrefix(cs);
      assert at + cs == (at + init) + [c];
    } else {
      assert at + cs == at;
      assert NotAbove(cs, 0) by { assert cs[..0] == []; }
    }
  }

  lemma {:induction false} ReduceConcat(rooted: bool, out: Path, a: Path, b: Path)
    ensures Reduce(rooted, out, a + b) == Reduce(rooted, Reduce(rooted, out, a), b)
  {
    if b == [] {
      assert a + b == a;
    } else {
      assert (a + b)[..|a + b| - 1] == a + b[..|b| - 1];
      ReduceConcat(rooted, out, a, b[..|b| - 1]);
    }
  }

  lemma {:induction false} ReducePlain(rooted: bool, out: Path, cs: Path)
    requires AllPlain(cs)
    ensures Reduce(rooted, out, cs) == out + cs
  {
    if cs != [] {
      var init, c := cs[..|cs| - 1], cs[|cs| - 1];
      assert c in cs && forall x <- init :: x in cs;
      ReducePlain(rooted, out, init);
      assert out + cs == (out + init) + [c];
    }
  }

  /** Cleaning "<clean root>/<clean relative name>" only concatenates. */
  lemma CleanJoined(rooted: bool, root: Path, cs: Path)
    requires AllPlain(root) && AllPlain(cs)
    ensures JoinClean(Render(rooted, root), Render(false, cs)) == Render(rooted, root + cs)
  {
    var r, n := Render(rooted, root), Render(false, cs);
    var s := r + "/" + n;
    SplitConcat(r, n);
    SplitOfRender(rooted, root);
    SplitOfRender(false, cs);
    ReduceConcat(rooted, [], Split(r), Split(n));
    RenderFirst(rooted, root);
    assert s[0] == r[0];
    assert Reduce(rooted, [], Split(r)) == [] + root == root;
    assert Reduce(rooted, root, Split(n)) == root + cs;
  }

  lemma RenderFirst(rooted: bool, cs: Path)
    requires AllPlain(cs)
    ensures Render(rooted, cs) != "" && (Render(rooted, cs)[0] == '/' <==> rooted)
  {
    if !rooted && cs != [] {
      assert Plain(cs[0]);
      assert Join(cs)[0] == cs[0][0];
    }
  }

  lemma SplitOfRender(rooted: bool, cs: Path)
    requires AllPlain(cs)
    ensures Render(rooted, cs) != ""
    ensures forall out :: Reduce(rooted, out, Split(Render(rooted, cs))) == out + cs
    ensures !rooted ==> forall r, out :: Reduce(r, out, Split(Render(rooted, cs))) == out + cs
  {
    RenderFirst(rooted, cs);
    var s := Render(rooted, cs);
    forall r: bool, out: Path | r == rooted || !rooted
      ensures Reduce(r, out, Split(s)) == out + cs
    {
      if rooted {
        assert s == "" + "/" + Join(cs);
        SplitConcat("", Join(cs));
        assert Split("") == [""];
        ReduceConcat(r, out, [""], Split(Join(cs)));
        assert Reduce(r, out, [""]) == out by { assert [""][..0] == []; }
      }
      if cs == [] {
        SplitWhole("");
        SplitWhole(".");
        assert [""][..0] == [] && ["."][..0] == [];
      } else {
        SplitJoin(cs);
        ReducePlain(r, out, cs);
      }
    }
  }

  lemma EscapeTest(out: Path)
    requires forall c <- out :: '/' !in c
    ensures var clean := Render(false, out);
            (clean == ".." || HasPrefix(clean, "../")) <==> (out != [] && out[0] == "..")
  {
    if out != [] {
      var clean := Join(out);
      SplitJoin(out);
      SplitWhole("..");
      PrefixIsStrictlyBelow(clean, "..");
      assert ".." + "/" == "../";
      if clean == ".." {
        assert out == [".."];
      }
      if out[0] == ".." {
        if |out| == 1 {
          assert clean == "..";
        } else {
          assert Split("..") < out;
        }
      }
    }
  }

  /** The caller-visible conditions under which SafeJoin accepts a name. */
  ghost predicate Acceptable(name: string)
  {
    name != "" && '\0' !in name && '\\' !in name && name[0] != '/' && StaysInside(Split(name))
  }

  /** SafeJoin accepts exactly the acceptable names, and what it returns is
      where a component-by-component walk from the root ends: at or below the
      root, with no "." or ".." left. */
  lemma SafeJoinIsWalk(rooted: bool, root: Path, name: string)
    requires AllPlain(root)
    ensures var r := SafeJoin(Render(rooted, root), name);
            && (r.Ok? <==> Acceptable(name))
            && (r.Ok? ==>
                  var target := Walk(root, Split(name));
                  r.name == Render(rooted, target) && AllPlain(target) && root <= target)
  {
    if name != "" && '\0' !in name && '\\' !in name && name[0] != '/' {
      var out := Reduce(false, [], Split(name));
      ReduceIsWalk(Split(name));
      assert Clean(name) == Render(false, out);
      EscapeTest(out);
      if StaysInside(Split(name)) {
        assert out == [] || out[0] != ".." by {
          assert out != [] ==> out[0] in out;
        }
        CleanJoined(rooted, root, out);
        WalkFrom(root, Split(name));
        assert Walk([], Split(name)) == out;
      }
    }
  }

  /** Which error a refused name gets. */
  lemma RefusalIs(rooted: bool, root: Path, name: string)
    requires AllPlain(root)
    ensures var r := SafeJoin(Render(rooted, root), name);
            && (r == Err(EmptyName) <==> name == "")
            && (r == Err(NulInName) <==> '\0' in name)
            && (r == Err(BackslashInName) <==> '\\' in name && '\0' !in name)
            && (r == Err(AbsoluteName) <==> HasPrefix(name, "/") && '\\' !in name && '\0' !in name)
            && (r == Err(EscapesRoot) <==>
                  name != "" && !HasPrefix(name, "/") && '\\' !in name && '\0' !in name && !StaysInside(Split(name)))
  {
    hide Clean, Render, StaysInside, Split, JoinClean, Walk;
    SafeJoinIsWalk(rooted, root, name);
    assert HasPrefix(name, "/") <==> name != "" && name[0] == '/';
  }

  /** Every intermediate directory of an accepted walk is at or below the root. */
  lemma AcceptedWalkStaysBelow(root: Path, name: string, k: nat)
    requires Acceptable(name) && k <= |Split(name)|
    ensures root <= Walk(root, Split(name)[..k])
  {
    var cs := Split(name)[..k];
    forall j: nat | j <= k ensures NotAbove(cs, j) {
      assert NotAbove(Split(name), j) && cs[..j] == Split(name)[..j];
    }
    WalkFrom(root, cs);
  }

  /** Two accepted names that normalise alike are joined alike. */
  lemma SafeJoinDependsOnNormalForm(rooted: bool, root: Path, a: string, b: string)
    requires AllPlain(root) && Acceptable(a) && Acceptable(b)
    ensures SafeJoin(Render(rooted, root), a) == SafeJoin(Render(rooted, root), b) <==> Clean(a) == Clean(b)
  {
    SafeJoinIsWalk(rooted, root, a);
    SafeJoinIsWalk(rooted, root, b);
    ReduceIsWalk(Split(a));
    ReduceIsWalk(Split(b));
    WalkFrom(root, Split(a));
    WalkFrom(root, Split(b));
    var wa, wb := Walk([], Split(a)), Walk([], Split(b));
    assert Clean(a) == Render(false, wa) && Clean(b) == Render(false, wb);
    RenderInjective(rooted, root + wa, root + wb);
    RenderInjective(false, wa, wb);
    assert root + wa == root + wb <==> wa == wb by {
      assert (root + wa)[|root|..] == wa && (root + wb)[|root|..] == wb;
    }
  }

  lemma RenderInjective(rooted: bool, a: Path, b: Path)
    requires AllPlain(a) && AllPlain(b)
    ensures Render(rooted, a) == Render(rooted, b) <==> a == b
  {
    if Render(rooted, a) == Render(rooted, b) {
      SplitOfRender(rooted, a);
      SplitOfRender(rooted, b);
      assert [] + a == a && [] + b == b;
      assert Reduce(rooted, [], Split(Render(rooted, a))) == [] + a;
      assert Reduce(rooted, [], Split(Render(rooted, b))) == [] + b;
    }
  }

  // ------------------------------------------------------------- mirror keys

  predicate LabelChar(c: char)
  {
    'A' <= c <= 'Z' || 'a' <= c <= 'z' || '0' <= c <= '9' || c == '_' || c == '.' || c == '-'
  }

  /** labelRe: 1 to 64 characters, no leading dot or dash. */
  predicate ValidLabel(s: string)
  {
    1 <= |s| <= 64 && (forall c <- s :: LabelChar(c)) && s[0] != '.' && s[0] != '-'
  }

  lemma LabelIsPlain(hostLabel: string)
    requires ValidLabel(hostLabel)
    ensures Plain(hostLabel)
  {
    assert forall c <- hostLabel :: LabelChar(c);
    assert !LabelChar('/');
  }

  function TrimSlash(s: string): string
  {
    if HasPrefix(s, "/") then s[1..] else s
  }

  /** mirror.Rel: the index key of a request path. */
  function Rel(hostLabel: string, remotePath: string): NameResult
  {
    var r := SafeJoin(hostLabel, TrimSlash(remotePath));
    if r.Err? then r
    else if r.name == hostLabel then Err(MirrorsRoot)
    else r
  }

  /** What Rel promises of a key: a valid label, then at least one component,
      every one a directory entry of its own. */
  predicate ValidKey(key: string)
  {
    var cs := Split(key);
    |cs| >= 2 && ValidLabel(cs[0]) && AllPlain(cs)
  }

  /** Rel succeeds exactly on the acceptable paths that do not normalise to the
      file-system root; the key is then the label followed by the walk. */
  lemma RelIsLabelledWalk(hostLabel: string, remotePath: string)
    requires ValidLabel(hostLabel)
    ensures var t := if HasPrefix(remotePath, "/") then remotePath[1..] else remotePath;
            var r := Rel(hostLabel, remotePath);
            && (r == Err(MirrorsRoot) <==> Acceptable(t) && Walk([], Split(t)) == [])
            && (r.Ok? <==> Acceptable(t) && Walk([], Split(t)) != [])
            && (r.Ok? ==> ValidKey(r.name) && Split(r.name) == [hostLabel] + Walk([], Split(t)))
  {
    var t := TrimSlash(remotePath);
    LabelIsPlain(hostLabel);
    assert Render(false, [hostLabel]) == hostLabel;
    SafeJoinIsWalk(false, [hostLabel], t);
    if Acceptable(t) {
      WalkFrom([hostLabel], Split(t));
      var target := Walk([hostLabel], Split(t));
      assert target == [hostLabel] + Walk([], Split(t));
      SplitJoin(target);
      SplitWhole(hostLabel);
    }
  }

  lemma ValidKeyPath(key: string)
    requires ValidKey(key)
    ensures var p := Split(key);
            |p| >= 2 && p[0] != ".staging" && forall i :: 0 <= i < |p| ==> p[i] != ""
  {
    assert forall i :: 0 <= i < |Split(key)| ==> Plain(Split(key)[i]);
  }
}
