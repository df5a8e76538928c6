/** `Section` (internal/generator/section.go): compiling a section's
    `definitions` child into template definitions. */
module Sections {
  import opened Wrappers
  import opened Nodes
  import opened Effects

  // ---------------------------------------------------------------------------
  // `define`: one definition as template text
  // ---------------------------------------------------------------------------

  /** One character inside a Go-quoted string: the quote, the backslash and the
      newline, tab and carriage return are escaped, every other character is
      itself. */
  function Escape(c: char): string
  {
    if c == '"' then ['\\', '"']
    else if c == '\\' then ['\\', '\\']
    else if c == '\n' then ['\\', 'n']
    else if c == '\t' then ['\\', 't']
    else if c == '\r' then ['\\', 'r']
    else [c]
  }

  function Escaped(s: string): string
  {
    if s == [] then [] else Escape(s[0]) + Escaped(s[1..])
  }

  /** `%q` of a string. */
  function Quote(s: string): string
  {
    ['"'] + Escaped(s) + ['"']
  }

  /** `define`: `{{define <quoted Name> -}}<Content>{{- end}}`. */
  function Define(n: Node): string
  {
    "{{define " + Quote(n.Name) + " -}}" + n.Content + "{{- end}}"
  }

  /** Read a quoted string's body up to its closing quote: the text it stands
      for and what follows the quote. */
  function ReadQuoted(t: string): Option<(string, string)>
    decreases |t|
  {
    if t == [] then None
    else if t[0] == '"' then Some(([], t[1..]))
    else if t[0] == '\\' then
      if |t| < 2 then None
      else
        var c := if t[1] == 'n' then '\n' else if t[1] == 't' then '\t' else if t[1] == 'r' then '\r' else t[1];
        if c in {'\n', '\t', '\r', '"', '\\'} then
          match ReadQuoted(t[2..])
          case None => None
          case Some(p) => Some(([c] + p.0, p.1))
        else None
    else
      match ReadQuoted(t[1..])
      case None => None
      case Some(p) => Some(([t[0]] + p.0, p.1))
  }

  /** The name and content of a definition text produced by `Define`. */
  function ParseDefine(t: string): Option<(string, string)>
  {
    if |t| < 10 || t[..10] != "{{define \"" then None
    else match ReadQuoted(t[10..])
      case None => None
      case Some(p) =>
        var rest := p.1;
        if |rest| < 13 || rest[..4] != " -}}" || rest[|rest| - 9..] != "{{- end}}" then None
        else Some((p.0, rest[4..|rest| - 9]))
  }

  /** Reading back an escaped string stops at the quote that closes it. */
  lemma {:induction false} ReadEscaped(s: string, rest: string)
    ensures ReadQuoted(Escaped(s) + ['"'] + rest) == Some((s, rest))
  {
    if s == [] {
      assert Escaped(s) + ['"'] + rest == ['"'] + rest;
    } else {
      ReadEscaped(s[1..], rest);
      var t := Escaped(s) + ['"'] + rest;
      var e := Escape(s[0]);
      assert t == e + (Escaped(s[1..]) + ['"'] + rest);
      if |e| == 2 {
        assert t[0] == '\\' && t[1] == e[1];
        assert t[2..] == Escaped(s[1..]) + ['"'] + rest;
      } else {
        assert t[0] == s[0];
        assert t[1..] == Escaped(s[1..]) + ['"'] + rest;
      }
      assert [s[0]] + s[1..] == s;
    }
  }

  /** `define` loses nothing: the name and content can be read back from its
      text, so distinct definitions give distinct texts. */
  lemma DefineRoundTrip(n: Node)
    ensures ParseDefine(Define(n)) == Some((n.Name, n.Content))
  {
    var t := Define(n);
    var rest := " -}}" + n.Content + "{{- end}}";
    assert t == "{{define \"" + (Escaped(n.Name) + ['"'] + rest);
    assert t[10..] == Escaped(n.Name) + ['"'] + rest;
    ReadEscaped(n.Name, rest);
    assert rest[..4] == " -}}";
    assert rest[|rest| - 9..] == "{{- end}}";
    assert rest[4..|rest| - 9] == n.Content;
  }

  // ---------------------------------------------------------------------------
  // The reference definition of `Compile`
  // ---------------------------------------------------------------------------

  /** A `definitions` child without a name, which `Compile` refuses. */
  predicate IsUnnamedDefinitions(n: Node)
  {
    n.Type == "definitions" && n.Name == ""
  }

  /** The texts of the `define` nodes of `ns`, in order; other nodes are ignored. */
  function DefinesOf(ns: seq<Node>): seq<string>
  {
    if ns == [] then []
    else DefinesOf(ns[..|ns| - 1]) + (if ns[|ns| - 1].Type == "define" then [Define(ns[|ns| - 1])] else [])
  }

  /** The named `definitions` nodes of `ns` by Name; a later one replaces an earlier one. */
  function NamedDefinitions(ns: seq<Node>): map<string, Node>
  {
    if ns == [] then map[]
    else
      var m := NamedDefinitions(ns[..|ns| - 1]);
      var last := ns[|ns| - 1];
      if last.Type == "definitions" && last.Name != "" then m[last.Name := last] else m
  }

  /** The position of the first unnamed `definitions` node, or `|ns|`. */
  function FirstUnnamed(ns: seq<Node>): (j: nat)
    ensures j <= |ns|
  {
    if ns == [] then 0 else if IsUnnamedDefinitions(ns[0]) then 0 else 1 + FirstUnnamed(ns[1..])
  }

  /** `FirstUnnamed` is the first position of an unnamed `definitions` node. */
  lemma {:induction false} FirstUnnamedMeaning(ns: seq<Node>)
    ensures forall i :: 0 <= i < FirstUnnamed(ns) ==> !IsUnnamedDefinitions(ns[i])
    ensures FirstUnnamed(ns) < |ns| ==> IsUnnamedDefinitions(ns[FirstUnnamed(ns)])
  {
    if ns != [] && !IsUnnamedDefinitions(ns[0]) {
      FirstUnnamedMeaning(ns[1..]);
      assert forall i :: 1 <= i < |ns| ==> ns[i] == ns[1..][i - 1];
    }
  }

  /** The state of `Compile`'s loop over the `definitions` child. */
  datatype Scan = Scan(parsed: seq<string>, defn: map<string, Node>, err: Option<Error>)

  /** `Compile`'s loop from the node `ns[0]` on, having parsed `parsed` and
      collected `defn`: a `define` is parsed, a named `definitions` is
      recorded and an unnamed one stops the loop with an error. */
  function ScanDefinitions(secName: string, ns: seq<Node>, parsed: seq<string>, defn: map<string, Node>): Scan
    decreases |ns|
  {
    if ns == [] then Scan(parsed, defn, None)
    else if ns[0].Type == "define" then ScanDefinitions(secName, ns[1..], parsed + [Define(ns[0])], defn)
    else if ns[0].Type == "definitions" then
      if ns[0].Name == "" then Scan(parsed, defn, Some(UnnamedDefinitions(secName)))
      else ScanDefinitions(secName, ns[1..], parsed, defn[ns[0].Name := ns[0]])
    else ScanDefinitions(secName, ns[1..], parsed, defn)
  }

  /** The texts `Compile` parses and the error it returns. */
  datatype Compilation = Compilation(parsed: seq<string>, err: Option<Error>)

  /** The sub-definitions `Compile` would look up after a successful loop. */
  function Scanned(secName: string, sec: Node): Scan
    requires Child(sec, "definitions").Some?
  {
    ScanDefinitions(secName, Child(sec, "definitions").value.Body, [], map[])
  }

  /** `Compile` can finish: the section has a `definitions` child, and when
      the section node is named and the loop succeeds, `subname` names a
      sub-definition. The source dereferences nil otherwise. */
  predicate CanCompile(secName: string, sec: Node, subname: string)
  {
    && Child(sec, "definitions").Some?
    && (sec.Name != "" && Scanned(secName, sec).err.None? ==> subname in Scanned(secName, sec).defn)
  }

  /** `Section.Compile` as a value. */
  function Compiled(secName: string, sec: Node, subname: string): Compilation
    requires CanCompile(secName, sec, subname)
  {
    var s := Scanned(secName, sec);
    if s.err.Some? then Compilation(s.parsed, s.err)
    else if sec.Name != "" then Compilation(s.parsed + DefinesOf(s.defn[subname].Body), None)
    else Compilation(s.parsed, None)
  }

  // ---------------------------------------------------------------------------
  // What `Compile` does
  // ---------------------------------------------------------------------------

  /** The loop from any position before the first unnamed `definitions` node
      ends as the whole loop does. */
  lemma {:induction false} ScanFrom(secName: string, ns: seq<Node>, i: nat)
    requires i <= FirstUnnamed(ns)
    ensures var j := FirstUnnamed(ns);
            ScanDefinitions(secName, ns[i..], DefinesOf(ns[..i]), NamedDefinitions(ns[..i]))
            == Scan(DefinesOf(ns[..j]), NamedDefinitions(ns[..j]),
                    if j < |ns| then Some(UnnamedDefinitions(secName)) else None)
    decreases |ns| - i
  {
    FirstUnnamedMeaning(ns);
    if i < |ns| && i < FirstUnnamed(ns) {
      assert ns[..i + 1][..i] == ns[..i];
      assert ns[..i + 1][i] == ns[i];
      assert ns[i..][1..] == ns[i + 1..];
      assert ns[i..][0] == ns[i];
      ScanFrom(secName, ns, i + 1);
      assert DefinesOf(ns[..i + 1]) == DefinesOf(ns[..i]) + (if ns[i].Type == "define" then [Define(ns[i])] else []);
      assert NamedDefinitions(ns[..i + 1]) ==
        if ns[i].Type == "definitions" && ns[i].Name != "" then NamedDefinitions(ns[..i])[ns[i].Name := ns[i]] else NamedDefinitions(ns[..i]);
      assert !IsUnnamedDefinitions(ns[i]);
      if ns[i].Type != "define" {
        assert DefinesOf(ns[..i + 1]) == DefinesOf(ns[..i]);
      }
      assert ScanDefinitions(secName, ns[i..], DefinesOf(ns[..i]), NamedDefinitions(ns[..i]))
          == ScanDefinitions(secName, ns[i + 1..], DefinesOf(ns[..i + 1]), NamedDefinitions(ns[..i + 1]));
    } else if i < |ns| {
      assert ns[i..][0] == ns[i];
    } else {
      assert ns[..i] == ns;
    }
  }

  /** `Compile` fails exactly when the `definitions` child has an unnamed
      `definitions` node, reporting the section; the `define` nodes before the
      first such node have been parsed, in order. Otherwise every top-level
      `define` is parsed in order and, when the section node is named, then
      the `define` nodes of the sub-definition `subname`, the last of that name. */
  lemma CompiledMeaning(secName: string, sec: Node, subname: string)
    requires CanCompile(secName, sec, subname)
    ensures var ns := Child(sec, "definitions").value.Body;
            var c := Compiled(secName, sec, subname);
            && (c.err.Some? <==> exists i :: 0 <= i < |ns| && IsUnnamedDefinitions(ns[i]))
            && (c.err.Some? ==> c.err == Some(UnnamedDefinitions(secName)) && c.parsed == DefinesOf(ns[..FirstUnnamed(ns)]))
            && (c.err.None? && sec.Name == "" ==> c.parsed == DefinesOf(ns))
            && (c.err.None? && sec.Name != "" ==>
                  subname in NamedDefinitions(ns) &&
                  c.parsed == DefinesOf(ns) + DefinesOf(NamedDefinitions(ns)[subname].Body))
  {
    var ns := Child(sec, "definitions").value.Body;
    ScanFrom(secName, ns, 0);
    assert ns[0..] == ns && ns[..0] == [];
    FirstUnnamedMeaning(ns);
    if FirstUnnamed(ns) == |ns| {
      assert ns[..|ns|] == ns;
    }
  }

  /** A `definitions` node recorded under `name`. */
  predicate NamedAs(n: Node, name: string)
  {
    n.Type == "definitions" && n.Name == name && name != ""
  }

  /** The position of the last `definitions` node named `name`, or -1. */
  function LastNamed(ns: seq<Node>, name: string): (i: int)
    ensures -1 <= i < |ns|
  {
    if ns == [] then -1
    else if NamedAs(ns[|ns| - 1], name) then |ns| - 1
    else LastNamed(ns[..|ns| - 1], name)
  }

  /** `LastNamed` is the last position of a `definitions` node of that name. */
  lemma {:induction false} LastNamedMeaning(ns: seq<Node>, name: string)
    ensures LastNamed(ns, name) >= 0 ==> NamedAs(ns[LastNamed(ns, name)], name)
    ensures forall j :: LastNamed(ns, name) < j < |ns| ==> !NamedAs(ns[j], name)
  {
    if ns != [] && !NamedAs(ns[|ns| - 1], name) {
      var init := ns[..|ns| - 1];
      LastNamedMeaning(init, name);
      assert forall j :: 0 <= j < |init| ==> init[j] == ns[j];
    }
  }

  /** The sub-definition indexed under a name is the last `definitions` node
      of that name; there is one exactly when some node has the name. */
  lemma {:induction false} NamedDefinitionsLast(ns: seq<Node>, name: string)
    ensures name in NamedDefinitions(ns) <==> LastNamed(ns, name) >= 0
    ensures name in NamedDefinitions(ns) ==> NamedDefinitions(ns)[name] == ns[LastNamed(ns, name)]
  {
    if ns != [] {
      var init := ns[..|ns| - 1];
      NamedDefinitionsLast(init, name);
      if LastNamed(init, name) >= 0 {
        assert init[LastNamed(init, name)] == ns[LastNamed(init, name)];
      }
    }
  }

  // ---------------------------------------------------------------------------
  // The heap objects
  // ---------------------------------------------------------------------------

  /** The `text/template` set that definitions are parsed into: the texts
      parsed so far, in order. A parse error is ignored by `Compile`. */
  class Template {
    var Parsed: seq<string>

    constructor ()
      ensures Parsed == []
    {
      Parsed := [];
    }

    /** `tmpl.Parse(text)`. */
    method Parse(text: string)
      modifies this
      ensures Parsed == old(Parsed) + [text]
    {
      Parsed := Parsed + [text];
    }

    /** Parse the `define` nodes of `ns` in order, ignoring the others. */
    method ParseDefines(ns: seq<Node>)
      modifies this
      ensures Parsed == old(Parsed) + DefinesOf(ns)
    {
      var k := 0;
      while k < |ns|
        invariant 0 <= k <= |ns|
        invariant Parsed == old(Parsed) + DefinesOf(ns[..k])
      {
        assert ns[..k + 1][..k] == ns[..k];
        if ns[k].Type == "define" {
          Parse(Define(ns[k]));
        }
        k := k + 1;
      }
      assert ns[..k] == ns;
    }
  }

  class Section {
    const Name: string
    const Node: Node

    /** `NewSection`. */
    constructor (name: string, node: Node)
      ensures Name == name && Node == node
    {
      Name := name;
      Node := node;
    }

    /** `Section.Compile`: parse the section's definitions into `tmpl`. */
    method Compile(subname: string, tmpl: Template) returns (err: Option<Error>)
      requires CanCompile(Name, Node, subname)
      modifies tmpl
      ensures tmpl.Parsed == old(tmpl.Parsed) + Compiled(Name, Node, subname).parsed
      ensures err == Compiled(Name, Node, subname).err
    {
      var top := Child(Node, "definitions").value;
      var defn: map<string, Node> := map[];
      ghost var parsed: seq<string> := [];
      var i := 0;
      while i < |top.Body|
        invariant 0 <= i <= |top.Body|
        invariant tmpl.Parsed == old(tmpl.Parsed) + parsed
        invariant Scanned(Name, Node) == ScanDefinitions(Name, top.Body[i..], parsed, defn)
      {
        var node := top.Body[i];
        assert top.Body[i..][1..] == top.Body[i + 1..];
        if node.Type == "define" {
          tmpl.Parse(Define(node));
          parsed := parsed + [Define(node)];
        } else if node.Type == "definitions" {
          if node.Name == "" {
            return Some(UnnamedDefinitions(Name));
          }
          defn := defn[node.Name := node];
        }
        i := i + 1;
      }
      if Node.Name != "" {
        tmpl.ParseDefines(defn[subname].Body);
      }
      return None;
    }
  }
}
