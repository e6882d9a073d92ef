/** langchain_emoji/paths.py and the `pathlib` behaviour it relies on.
    A path is modelled as `pathlib.PurePosixPath` sees it: whether it is
    anchored at `/`, and its list of non-empty components other than `.`. */
module Paths {
  import opened Text

  datatype Path = Path(absolute: bool, parts: seq<string>)

  /** A component `pathlib` keeps: non-empty, not `.`, without `/`. */
  predicate IsPart(p: string) {
    p != "" && p != "." && '/' !in p
  }

  /** `s.split("/")`: the pieces between the slashes. */
  function SplitSlash(s: string): (r: seq<string>)
    ensures |r| > 0
    ensures forall i :: 0 <= i < |r| ==> '/' !in r[i]
    decreases |s|
  {
    var i := Find(s, '/');
    if i < 0 then [s] else [s[..i]] + SplitSlash(s[i + 1..])
  }

  /** `"/".join(s.split("/"))` gives back `s`. */
  lemma {:induction false} SplitSlashJoinsBack(s: string)
    ensures Text.Join(SplitSlash(s), "/") == s
    decreases |s|
  {
    var i := Find(s, '/');
    if i >= 0 {
      SplitSlashAt(s, i);
      SplitSlashJoinsBack(s[i + 1..]);
      JoinBackStep(s[..i], s[i + 1..], SplitSlash(s[i + 1..]));
    }
  }

  /** At the first `/`, the text is the piece before it, the `/`, and the
      rest, and the split is that piece followed by the rest's split. */
  lemma SplitSlashAt(s: string, i: nat)
    requires i < |s| && Find(s, '/') == i
    ensures s == s[..i] + "/" + s[i + 1..]
    ensures SplitSlash(s) == [s[..i]] + SplitSlash(s[i + 1..])
  {
    assert s[i] == '/';
    AroundIndex(s, i);
  }

  /** A text is what comes before an index, the character there, and what
      comes after. */
  lemma AroundIndex(s: string, i: nat)
    requires i < |s|
    ensures s == s[..i] + [s[i]] + s[i + 1..]
  {
    assert s[..i] + [s[i]] == s[..i + 1];
  }

  /** One step: the piece before the first `/`, then the rest. */
  lemma JoinBackStep(head: string, tail: string, rest: seq<string>)
    requires |rest| > 0 && Text.Join(rest, "/") == tail
    ensures Text.Join([head] + rest, "/") == head + "/" + tail
  {
    JoinCons(head, rest, "/");
  }

  /** Conversely, splitting slash-free pieces joined by `/` gives them back. */
  lemma {:induction false} SplitSlashJoin(xs: seq<string>)
    requires |xs| > 0 && forall i :: 0 <= i < |xs| ==> '/' !in xs[i]
    ensures SplitSlash(Text.Join(xs, "/")) == xs
    decreases |xs|
  {
    if |xs| > 1 {
      var rest := xs[1..];
      assert xs == [xs[0]] + rest;
      JoinCons(xs[0], rest, "/");
      var s := Text.Join(xs, "/");
      var k := |xs[0]|;
      assert s == xs[0] + ("/" + Text.Join(rest, "/"));
      assert s[k] == '/' && s[..k] == xs[0];
      FindFirst(s, '/', k);
      assert s[k + 1..] == Text.Join(rest, "/");
      SplitSlashJoin(rest);
    }
  }

  /** Drops the empty and `.` pieces, as `pathlib` does when parsing. */
  function KeepParts(pieces: seq<string>): (r: seq<string>)
    requires forall i :: 0 <= i < |pieces| ==> '/' !in pieces[i]
    ensures forall i :: 0 <= i < |r| ==> IsPart(r[i])
    decreases |pieces|
  {
    if |pieces| == 0 then []
    else
      var rest := KeepParts(pieces[1..]);
      if pieces[0] == "" || pieces[0] == "." then rest else [pieces[0]] + rest
  }

  /** Components `pathlib` keeps are kept, and in order. */
  lemma {:induction false} KeepPartsOfParts(xs: seq<string>)
    requires forall i :: 0 <= i < |xs| ==> IsPart(xs[i])
    ensures forall i :: 0 <= i < |xs| ==> '/' !in xs[i]
    ensures KeepParts(xs) == xs
    decreases |xs|
  {
    if |xs| > 0 {
      KeepPartsOfParts(xs[1..]);
    }
  }

  /** `PurePosixPath(s)`. */
  function ParsePath(s: string): (p: Path)
    ensures p.absolute <==> |s| > 0 && s[0] == '/'
    ensures forall i :: 0 <= i < |p.parts| ==> IsPart(p.parts[i])
  {
    Path(|s| > 0 && s[0] == '/', KeepParts(SplitSlash(s)))
  }

  /** Components joined by `/` read back as a relative path with exactly
      those components, and with a leading `/` as an absolute one. */
  lemma ParsePathOfParts(xs: seq<string>)
    requires |xs| > 0 && forall i :: 0 <= i < |xs| ==> IsPart(xs[i])
    ensures ParsePath(Text.Join(xs, "/")) == Path(false, xs)
    ensures ParsePath("/" + Text.Join(xs, "/")) == Path(true, xs)
  {
    SplitSlashJoin(xs);
    KeepPartsOfParts(xs);
    JoinStartsWithFirst(xs);
    SplitSlashRooted(xs);
  }

  /** The joined text starts with the first component's first character. */
  lemma JoinStartsWithFirst(xs: seq<string>)
    requires |xs| > 0 && |xs[0]| > 0
    ensures |Text.Join(xs, "/")| > 0 && Text.Join(xs, "/")[0] == xs[0][0]
  {
    if |xs| > 1 {
      JoinCons(xs[0], xs[1..], "/");
      assert xs == [xs[0]] + xs[1..];
    }
  }

  /** A leading `/` splits off one empty piece, which `pathlib` drops. */
  lemma SplitSlashRooted(xs: seq<string>)
    requires |xs| > 0 && forall i :: 0 <= i < |xs| ==> IsPart(xs[i])
    ensures KeepParts(SplitSlash("/" + Text.Join(xs, "/"))) == xs
  {
    var s := Text.Join(xs, "/");
    SplitSlashLeading(s);
    var ys := SplitSlash(s);
    assert ([""] + ys)[1..] == ys;
    SplitSlashJoin(xs);
    KeepPartsOfParts(xs);
  }

  lemma SplitSlashLeading(s: string)
    ensures SplitSlash("/" + s) == [""] + SplitSlash(s)
  {
    FindFirst("/" + s, '/', 0);
    assert ("/" + s)[1..] == s;
    assert ("/" + s)[..0] == "";
  }

  /** `p / q`: an absolute right operand replaces the left one. */
  function Join(p: Path, q: Path): (r: Path)
    ensures q.absolute ==> r == q
    ensures !q.absolute ==> r.absolute == p.absolute && r.parts == p.parts + q.parts
  {
    if q.absolute then q else Path(p.absolute, p.parts + q.parts)
  }

  /** `p / "s"`. */
  function Div(p: Path, s: string): Path {
    Join(p, ParsePath(s))
  }

  /** `_absolute_or_from_project_root`: a string starting with `/` is
      taken as it is; any other string is joined under the root. */
  function AbsoluteOrFromProjectRoot(root: Path, path: string): (r: Path)
    ensures |path| > 0 && path[0] == '/' ==> r.absolute && r.parts == ParsePath(path).parts
    ensures !(|path| > 0 && path[0] == '/') ==>
              r.absolute == root.absolute && r.parts == root.parts + ParsePath(path).parts
  {
    if |path| > 0 && path[0] == '/' then ParsePath(path) else Div(root, path)
  }

  /** The explicit `startswith("/")` test agrees with `pathlib`'s own rule
      for joining onto the root, so the function equals `root / path`. */
  lemma AbsoluteOrFromProjectRootIsJoin(root: Path, path: string)
    ensures AbsoluteOrFromProjectRoot(root, path) == Div(root, path)
  {
  }

  /** `docs_path = PROJECT_ROOT_PATH / "docs"`. */
  function DocsPath(root: Path): (r: Path)
    ensures r.absolute == root.absolute && r.parts == root.parts + ["docs"]
  {
    assert SplitSlash("docs") == ["docs"];
    Div(root, "docs")
  }

  /** `local_data_path`: the rule applied to the configured data folder,
      which makes it `PROJECT_ROOT_PATH / local_data_folder`. */
  function LocalDataPath(root: Path, localDataFolder: string): (r: Path)
    ensures r == Div(root, localDataFolder)
    ensures r.absolute <==> root.absolute || (|localDataFolder| > 0 && localDataFolder[0] == '/')
  {
    AbsoluteOrFromProjectRootIsJoin(root, localDataFolder);
    AbsoluteOrFromProjectRoot(root, localDataFolder)
  }

  /** Only the leading `/` decides: `./x` and `~/x` are both taken as
      relative to the root, and `~` is not expanded. */
  lemma LeadingSlashOnlyDecides(root: Path)
    ensures AbsoluteOrFromProjectRoot(root, "./x") == Path(root.absolute, root.parts + ["x"])
    ensures AbsoluteOrFromProjectRoot(root, "~/x") == Path(root.absolute, root.parts + ["~", "x"])
  {
    assert "./x"[..1] == ".";
    assert SplitSlash("./x") == [".", "x"] by {
      assert Find("./x", '/') == 1;
      assert "./x"[2..] == "x";
    }
    assert SplitSlash("~/x") == ["~", "x"] by {
      assert Find("~/x", '/') == 1;
      assert "~/x"[..1] == "~";
      assert "~/x"[2..] == "x";
    }
  }
}
