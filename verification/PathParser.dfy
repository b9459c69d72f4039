/**
 Absolute paths "d:/part/part": src/fs/path_parser.c.

 A C string is a `string`; it ends at its first '\0' or, when it holds none, at the end
 of the sequence. The parser sees at most MAX_PATH_LEN characters of it.
 */
module PathParser {
  import opened Status

  const MAX_PATH_LEN := 250

  datatype PathRoot = PathRoot(drive: nat, parts: seq<string>)

  // ---------- the string helpers the parser calls ----------

  /** strnlen: the characters before the terminator, at most `max`. */
  function Strnlen(s: string, max: nat): (n: nat)
    ensures n <= max && n <= |s|
    ensures '\0' !in s[..n]
    ensures n < max && n < |s| ==> s[n] == '\0'
  {
    if max == 0 || |s| == 0 || s[0] == '\0' then 0
    else
      var n := 1 + Strnlen(s[1..], max - 1);
      assert s[..n] == [s[0]] + s[1..][..n - 1];
      n
  }

  /** memchr: the first index of `c`, or the length when it does not occur. */
  function IndexOf(s: string, c: char): (k: nat)
    ensures k <= |s| && c !in s[..k]
    ensures k < |s| ==> s[k] == c
  {
    if |s| == 0 || s[0] == c then 0
    else
      var k := 1 + IndexOf(s[1..], c);
      assert s[..k] == [s[0]] + s[1..][..k - 1];
      k
  }

  /** The part of the argument the parser looks at. */
  function Visible(path: string): string {
    path[..Strnlen(path, MAX_PATH_LEN)]
  }

  // ---------- what a path means ----------

  predicate IsDigit(c: char) {
    '0' <= c <= '9'
  }

  predicate PathIsValid(path: string) {
    var v := Visible(path);
    |v| >= 3 && IsDigit(v[0]) && v[1..3] == ":/"
  }

  /** A string cut at every slash. */
  function Components(s: string): (cs: seq<string>)
    ensures cs != []
  {
    var k := IndexOf(s, '/');
    if k == |s| then [s] else [s[..k]] + Components(s[k + 1..])
  }

  function BeforeFirstEmpty(cs: seq<string>): seq<string> {
    if cs == [] || cs[0] == "" then [] else [cs[0]] + BeforeFirstEmpty(cs[1..])
  }

  /** The components before the first empty one. */
  function Parts(s: string): seq<string> {
    BeforeFirstEmpty(Components(s))
  }

  function Parsed(path: string): Option<PathRoot> {
    if PathIsValid(path) then
      var v := Visible(path);
      Some(PathRoot(v[0] as nat - '0' as nat, Parts(v[3..])))
    else None
  }

  // ---------- the parser ----------

  /** pathparser_path_parse, against the functions that specify it. The drive of a valid path
      is a digit, so the branch for a negative drive number cannot be taken and is not written. */
  method Split(path: string) returns (r: Option<PathRoot>)
    ensures r == Parsed(path)
  {
    hide Parts, Components, BeforeFirstEmpty;
    if !PathIsValid(path) {
      return None;
    }
    var pathEnd := Strnlen(path, MAX_PATH_LEN);
    ghost var v := Visible(path);
    var drive: nat := path[0] as nat - '0' as nat;
    var parts: seq<string> := [];
    var ptr := 3;
    while ptr <= pathEnd
      invariant 3 <= ptr <= pathEnd + 1
      invariant ptr <= pathEnd ==> parts + Parts(v[ptr..]) == Parts(v[3..])
      invariant ptr > pathEnd ==> parts == Parts(v[3..])
    {
      assert path[ptr..pathEnd] == v[ptr..];
      PartsStep(v[ptr..]);
      var partLen := IndexOf(path[ptr..pathEnd], '/');
      if partLen == 0 {
        break;
      }
      assert v[ptr..][..partLen] == path[ptr..ptr + partLen];
      assert ptr + partLen < pathEnd ==> v[ptr..][partLen + 1..] == v[ptr + partLen + 1..];
      parts := parts + [path[ptr..ptr + partLen]];
      ptr := ptr + partLen + 1;
    }
    assert parts + [] == parts;
    return Some(PathRoot(drive, parts));
  }

  /** pathparser_path_parse: which texts are accepted, and what is read from them. */
  method Parse(path: string) returns (r: Option<PathRoot>)
    ensures r == Parsed(path)
    ensures var n := Strnlen(path, 250);
            r.Some? <==> n >= 3 && '0' <= path[0] <= '9' && path[1] == ':' && path[2] == '/'
    ensures r.Some? ==>
              var text, parts := path[3..Strnlen(path, 250)], r.value.parts;
              var joined := Join(parts);
              && r.value.drive == path[0] as nat - '0' as nat
              && (forall i | 0 <= i < |parts| :: parts[i] != "" && '/' !in parts[i] && '\0' !in parts[i])
              && if parts == [] then text == "" || text[0] == '/'
                 else
                   && joined <= text
                   && (|text| > |joined| ==> text[|joined|] == '/')
                   && (|text| > |joined| + 1 ==> text[|joined| + 1] == '/')
  {
    hide *;
    ParsedIs(path);
    r := Split(path);
  }

  /** The first part reaches to the next slash or to the end; an empty one ends the parts. */
  lemma PartsStep(s: string)
    ensures var k := IndexOf(s, '/');
            Parts(s) == if k == 0 then [] else [s[..k]] + if k < |s| then Parts(s[k + 1..]) else []
  {
    hide BeforeFirstEmpty;
    var k := IndexOf(s, '/');
    if k == |s| {
      assert s[..k] == s;
      FirstPart([s]);
    } else {
      FirstPart([s[..k]] + Components(s[k + 1..]));
    }
  }

  lemma FirstPart(cs: seq<string>)
    requires cs != []
    ensures BeforeFirstEmpty(cs) == if |cs[0]| == 0 then [] else [cs[0]] + BeforeFirstEmpty(cs[1..])
    ensures |cs| == 1 ==> BeforeFirstEmpty(cs[1..]) == []
  {}

  // ---------- printing, and the round trip ----------

  function Join(parts: seq<string>): string {
    if parts == [] then ""
    else if |parts| == 1 then parts[0]
    else parts[0] + "/" + Join(parts[1..])
  }

  function Print(p: PathRoot): string
    requires p.drive <= 9
  {
    [('0' as nat + p.drive) as char] + ":/" + Join(p.parts)
  }

  predicate ProperPart(part: string) {
    part != "" && '/' !in part && '\0' !in part
  }

  predicate ProperParts(parts: seq<string>) {
    forall i | 0 <= i < |parts| :: ProperPart(parts[i])
  }

  lemma {:induction false} PartsOfJoin(parts: seq<string>)
    requires ProperParts(parts)
    ensures Parts(Join(parts)) == parts
    ensures '\0' !in Join(parts)
  {
    if |parts| == 1 {
      assert Components(parts[0]) == parts;
      assert BeforeFirstEmpty(parts[1..]) == [];
    } else if |parts| > 1 {
      var s := Join(parts);
      var k := |parts[0]|;
      assert s[..k] == parts[0] && s[k] == '/' && s[k + 1..] == Join(parts[1..]);
      assert IndexOf(s, '/') == k by {
        assert forall i | 0 <= i < k :: s[i] == parts[0][i];
      }
      PartsOfJoin(parts[1..]);
      assert Components(s) == [parts[0]] + Components(s[k + 1..]);
    }
  }

  /** Reading never invents: the parts found, joined again, are how the text begins. */
  lemma {:induction false} JoinOfParts(s: string)
    requires '\0' !in s
    ensures Join(Parts(s)) <= s
    ensures ProperParts(Parts(s))
    decreases |s|
  {
    hide Parts, Components, BeforeFirstEmpty;
    var k := IndexOf(s, '/');
    PartsStep(s);
    if 0 < k < |s| {
      var rest := s[k + 1..];
      JoinOfParts(rest);
      assert Parts(s)[1..] == Parts(rest);
      assert s == s[..k] + "/" + rest;
    }
  }

  /** The text goes on after the parts found only where a component is empty. */
  lemma {:induction false} PartsEnd(s: string)
    ensures var joined := Join(Parts(s));
            if Parts(s) == [] then s == "" || s[0] == '/'
            else
              && joined <= s
              && (|s| > |joined| ==> s[|joined|] == '/')
              && (|s| > |joined| + 1 ==> s[|joined| + 1] == '/')
    decreases |s|
  {
    hide Parts, Components, BeforeFirstEmpty;
    var k := IndexOf(s, '/');
    PartsStep(s);
    if 0 < k < |s| {
      var rest := s[k + 1..];
      PartsEnd(rest);
      assert Parts(s)[1..] == Parts(rest);
      assert s == s[..k] + "/" + rest;
    }
  }

  /** Which texts are accepted, and what is read from them. */
  lemma ParsedIs(path: string)
    ensures var n := Strnlen(path, 250);
            Parsed(path).Some? <==> n >= 3 && '0' <= path[0] <= '9' && path[1] == ':' && path[2] == '/'
    ensures Parsed(path).Some? ==>
              var text, parts := path[3..Strnlen(path, 250)], Parsed(path).value.parts;
              var joined := Join(parts);
              && Parsed(path).value.drive == path[0] as nat - '0' as nat
              && (forall i | 0 <= i < |parts| :: parts[i] != "" && '/' !in parts[i] && '\0' !in parts[i])
              && if parts == [] then text == "" || text[0] == '/'
                 else
                   && joined <= text
                   && (|text| > |joined| ==> text[|joined|] == '/')
                   && (|text| > |joined| + 1 ==> text[|joined| + 1] == '/')
  {
    var v := Visible(path);
    if |v| >= 3 {
      assert v[1..3] == [v[1], v[2]];
      assert v[1..3] == ":/" <==> v[1] == ':' && v[2] == '/';
    }
    if Parsed(path).Some? {
      assert v[3..] == path[3..Strnlen(path, 250)];
      PartsEnd(v[3..]);
      ParseThenPrint(path);
    }
  }

  /** Whatever the parser accepts prints back to a beginning of what it read. */
  lemma ParseThenPrint(path: string)
    requires Parsed(path).Some?
    ensures Parsed(path).value.drive <= 9
    ensures ProperParts(Parsed(path).value.parts)
    ensures Print(Parsed(path).value) <= Visible(path)
  {
    var v := Visible(path);
    JoinOfParts(v[3..]);
    assert v == [v[0]] + ":/" + v[3..];
  }

  /** Parsing undoes printing exactly for proper parts of at most 250 characters in all. */
  lemma PrintThenParse(p: PathRoot)
    requires p.drive <= 9
    ensures Parsed(Print(p)) == Some(p) <==> ProperParts(p.parts) && |Print(p)| <= MAX_PATH_LEN
  {
    var s := Print(p);
    if ProperParts(p.parts) && |s| <= MAX_PATH_LEN {
      PartsOfJoin(p.parts);
      assert '\0' !in s;
      assert Visible(s) == s;
      assert s[3..] == Join(p.parts);
    }
    if Parsed(s) == Some(p) {
      ParseThenPrint(s);
    }
  }
}
