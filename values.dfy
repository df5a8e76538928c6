/** `ExecValueTemplate` (internal/generator/generator.go): an action's key
    value is rendered as a template only when it holds a template action. */
module Values {
  import opened Wrappers
  import opened Nodes

  /** Whether `s` contains "{{" (`strings.Contains(s, "{{")`). */
  predicate HasAction(s: string)
    decreases |s|
  {
    |s| >= 2 && ((s[0] == '{' && s[1] == '{') || HasAction(s[1..]))
  }

  /** `HasAction` finds exactly the adjacent pairs of opening braces. */
  lemma {:induction false} HasActionIff(s: string)
    ensures HasAction(s) <==> exists i :: 0 <= i < |s| - 1 && s[i] == '{' && s[i + 1] == '{'
    decreases |s|
  {
    if |s| >= 2 {
      HasActionIff(s[1..]);
      if exists i :: 0 <= i < |s| - 1 && s[i] == '{' && s[i + 1] == '{' {
        var i :| 0 <= i < |s| - 1 && s[i] == '{' && s[i + 1] == '{';
        if i > 0 {
          assert s[1..][i - 1] == '{' && s[1..][i] == '{';
        }
      }
      if HasAction(s[1..]) {
        var i :| 0 <= i < |s| - 2 && s[1..][i] == '{' && s[1..][i + 1] == '{';
        assert s[i + 1] == '{' && s[i + 2] == '{';
      }
    }
  }

  /** `ExecValueTemplate`: a value without "{{" is returned unchanged and
      without error; any other value is parsed and executed on `node` by the
      template engine, here the oracle `render`. */
  function ExecValueTemplate(value: string, node: Node, render: (string, Node) -> Result<string, string>): (r: Result<string, string>)
    ensures (forall i :: 0 <= i < |value| - 1 ==> !(value[i] == '{' && value[i + 1] == '{')) ==> r == Success(value)
    ensures (exists i :: 0 <= i < |value| - 1 && value[i] == '{' && value[i + 1] == '{') ==> r == render(value, node)
  {
    HasActionIff(value);
    if !HasAction(value) then Success(value) else render(value, node)
  }
}
