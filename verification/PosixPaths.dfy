/** `PurePosixPath`: a root and the components between slashes, without the empty and
    "." ones. */
module PosixPaths {

  datatype Path = Path(root: string, components: seq<string>)

  function Keep(component: string): seq<string> {
    if component == "" || component == "." then [] else [component]
  }

  /** Splits s at its slashes; `current` is the component read so far. */
  function Components(s: string, current: string): seq<string>
  {
    if s == [] then Keep(current)
    else if s[0] == '/' then Keep(current) + Components(s[1..], [])
    else Components(s[1..], current + [s[0]])
  }

  /** A single leading slash and three or more mean "/"; exactly two mean "//". */
  function Root(s: string): (r: string)
    ensures r == "" <==> s == "" || s[0] != '/'
    ensures r == "//" <==> s == "//" || (|s| > 2 && s[..2] == "//" && s[2] != '/')
    ensures r in {"", "/", "//"}
  {
    if s == [] || s[0] != '/' then ""
    else if |s| >= 2 && s[1] == '/' && (|s| == 2 || s[2] != '/') then "//"
    else "/"
  }

  function Parse(s: string): Path { Path(Root(s), Components(s, [])) }

  /** The sequence that `.parts` returns. */
  function Parts(p: Path): seq<string> {
    (if p.root == "" then [] else [p.root]) + p.components
  }

  function Join(components: seq<string>): string
  {
    if components == [] then ""
    else if |components| == 1 then components[0]
    else components[0] + "/" + Join(components[1..])
  }

  /** `.as_posix()`. */
  function AsPosix(p: Path): string {
    if p.root == "" && p.components == [] then "." else p.root + Join(p.components)
  }

  ghost predicate Plain(component: string) {
    component != "" && component != "." && '/' !in component
  }

  lemma {:induction false} ComponentsOfPlain(s: string, current: string)
    requires '/' !in s
    ensures Components(s, current) == Keep(current + s)
  {
    if s == [] {
      assert current + s == current;
    } else {
      ComponentsOfPlain(s[1..], current + [s[0]]);
      assert current + [s[0]] + s[1..] == current + s;
    }
  }

  lemma {:induction false} ComponentsAfterSlash(s: string, rest: string, current: string)
    requires '/' !in s
    ensures Components(s + "/" + rest, current) == Keep(current + s) + Components(rest, [])
  {
    var t := s + "/" + rest;
    if s == [] {
      assert current + s == current && t[1..] == rest;
    } else {
      assert t[1..] == s[1..] + "/" + rest;
      ComponentsAfterSlash(s[1..], rest, current + [s[0]]);
      assert current + [s[0]] + s[1..] == current + s;
    }
  }

  /** Splitting and joining undo each other on plain components. */
  lemma {:induction false} ComponentsOfJoin(components: seq<string>)
    requires forall i :: 0 <= i < |components| ==> Plain(components[i])
    ensures Components(Join(components), []) == components
  {
    if |components| == 1 {
      ComponentsOfPlain(components[0], []);
      assert [] + components[0] == components[0];
    } else if |components| > 1 {
      ComponentsAfterSlash(components[0], Join(components[1..]), []);
      assert [] + components[0] == components[0];
      ComponentsOfJoin(components[1..]);
      assert components == [components[0]] + components[1..];
    }
  }

  lemma {:induction false} ComponentsArePlain(s: string, current: string)
    requires '/' !in current
    ensures forall i :: 0 <= i < |Components(s, current)| ==> Plain(Components(s, current)[i])
  {
    if s != [] {
      if s[0] == '/' {
        ComponentsArePlain(s[1..], []);
      } else {
        ComponentsArePlain(s[1..], current + [s[0]]);
      }
    }
  }

  /** A relative path with components is recovered from its normal form. */
  lemma ParseOfNormalized(p: Path)
    requires p.root == "" && p.components != []
    requires forall i :: 0 <= i < |p.components| ==> Plain(p.components[i])
    ensures Parse(AsPosix(p)) == p
  {
    ComponentsOfJoin(p.components);
    var head := p.components[0];
    assert AsPosix(p) == Join(p.components);
    assert Join(p.components)[0] == head[0] by {
      if |p.components| > 1 {
        assert Join(p.components) == head + "/" + Join(p.components[1..]);
      }
    }
    assert head[0] in head;
  }

  /** The normal form of every path, absolute or relative, denotes that path. */
  lemma NormalFormParses(s: string)
    ensures Parse(AsPosix(Parse(s))) == Parse(s)
  {
    hide Components, Join;
    var p := Parse(s);
    ComponentsArePlain(s, []);
    if p.root == "" && p.components == [] {
      NothingIsKept();
    } else if p.root == "" {
      ParseOfNormalized(p);
    } else {
      RootedParses(p);
    }
  }

  lemma NothingIsKept()
    ensures Components(".", []) == [] && Components([], []) == [] && Join([]) == ""
  {
    ComponentsOfPlain(".", []);
    assert [] + "." == ".";
  }

  lemma RootedParses(p: Path)
    requires p.root in {"/", "//"} && forall i :: 0 <= i < |p.components| ==> Plain(p.components[i])
    ensures Parse(p.root + Join(p.components)) == p
  {
    var rest := Join(p.components);
    JoinedHasNoSlashFirst(p.components);
    ComponentsOfJoin(p.components);
    SlashesAreDropped(rest);
    assert ("/" + rest)[0] == '/' && ("//" + rest)[0] == '/' && ("//" + rest)[1] == '/';
    if rest != "" {
      assert ("/" + rest)[1] == rest[0] && ("//" + rest)[2] == rest[0];
      assert ("//" + rest)[..2] == "//";
    }
  }

  lemma SlashesAreDropped(rest: string)
    ensures Components("/" + rest, []) == Components(rest, []) == Components("//" + rest, [])
  {
    ComponentsAfterSlash([], rest, []);
    ComponentsAfterSlash([], "/" + rest, []);
    assert [] + "/" + rest == "/" + rest && [] + "/" + ("/" + rest) == "//" + rest;
    var none: string := [];
    assert none + none == none && Keep(none) == [];
    assert [] + Components(rest, []) == Components(rest, []);
    assert [] + Components("/" + rest, []) == Components("/" + rest, []);
  }

  lemma JoinedHasNoSlashFirst(components: seq<string>)
    requires forall i :: 0 <= i < |components| ==> Plain(components[i])
    ensures Join(components) != "" ==> Join(components)[0] != '/'
  {
    if components != [] {
      var head := components[0];
      assert Join(components)[0] == head[0] && head[0] in head;
    }
  }

  /** The components of three texts with the letters a and b. */
  lemma SmallPaths()
    ensures Components("a", []) == ["a"] && Components("a/b", []) == ["a", "b"] && Components("a//b", []) == ["a", "b"]
    ensures Join(["a"]) == "a" && Join(["a", "b"]) == "a/b"
  {
    hide Components, Join;
    LettersAreComponents();
    ComponentsAfterSlash("a", "b", []);
    ComponentsAfterSlash([], "b", []);
    var none: string := [];
    assert none + "a" == "a" && none + none == none;
    ComponentsAfterSlash("a", "/b", []);
    assert "a" + "/" + "b" == "a/b" && [] + "/" + "b" == "/b" && "a" + "/" + "/b" == "a//b";
    assert [] + ["b"] == ["b"] && ["a"] + ["b"] == ["a", "b"];
    LettersJoined();
  }

  lemma LettersJoined()
    ensures Join(["a"]) == "a" && Join(["a", "b"]) == "a/b"
  {
    assert ["a", "b"][1..] == ["b"] && Join(["b"]) == "b";
    assert Join(["a", "b"]) == "a" + "/" + "b";
  }

  lemma LettersAreComponents()
    ensures Components("a", []) == Keep("a") == ["a"] && Components("b", []) == Keep("b") == ["b"]
    ensures Components([], []) == Keep([]) == []
  {
    ComponentsOfPlain("a", []);
    ComponentsOfPlain("b", []);
    assert [] + "a" == "a" && [] + "b" == "b";
  }
}
