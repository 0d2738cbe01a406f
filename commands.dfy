/** Matching free-text TUI input against the command vocabulary: `FindCommand` (pkg/helpers/helpers.go). */
module Commands {
  import opened Common

  /** The package-level `cmds` table, in the order `FindCommand` tries it. */
  const Vocabulary: seq<string> := [
    "get", "roster", "revoke", "confirm", "list", "insert",
    "delete", "view", "edit", "status", "rollback", "timemachine"
  ]

  /** `strings.Contains`: `sub` occurs in `s` at some position. */
  predicate Contains(s: string, sub: string): (r: bool)
    ensures sub <= s ==> r
    ensures r ==> |sub| <= |s|
    ensures r ==> forall j :: 0 <= j < |sub| ==> sub[j] in s
  {
    OccurrenceFacts(s, sub);
    exists i :: 0 <= i <= |s| - |sub| && sub <= s[i..]
  }

  /** An occurrence at position 0 is a prefix, and every character of an occurrence is in `s`. */
  lemma OccurrenceFacts(s: string, sub: string)
    ensures sub <= s ==> sub <= s[0..]
    ensures (exists i :: 0 <= i <= |s| - |sub| && sub <= s[i..]) ==>
      forall j :: 0 <= j < |sub| ==> sub[j] in s
  {
    if i :| 0 <= i <= |s| - |sub| && sub <= s[i..] {
      forall j | 0 <= j < |sub|
        ensures sub[j] in s
      {
        assert sub[j] == s[i + j];
      }
    }
  }

  /** The vocabulary: twelve distinct, non-empty commands, from `get` to `timemachine`. */
  lemma VocabularyWellFormed()
    ensures |Vocabulary| == 12 && Vocabulary[0] == "get" && Vocabulary[11] == "timemachine"
    ensures forall k :: 0 <= k < |Vocabulary| ==> Vocabulary[k] != ""
    ensures forall i, j :: 0 <= i < j < |Vocabulary| ==> Vocabulary[i] != Vocabulary[j]
  {
  }

  /**
   * The first command of `cmds`, in list order, that occurs in `input`. The
   * priority is the order of `cmds`, not the position in `input`.
   */
  function FirstMatch(cmds: seq<string>, input: string): (r: Option<string>)
    ensures r.None? <==> forall k :: 0 <= k < |cmds| ==> !Contains(input, cmds[k])
    ensures r.Some? ==> exists k :: 0 <= k < |cmds| && r.value == cmds[k] && Contains(input, cmds[k])
                                    && forall m :: 0 <= m < k ==> !Contains(input, cmds[m])
  {
    if cmds == [] then None
    else if Contains(input, cmds[0]) then Some(cmds[0])
    else
      var r := FirstMatch(cmds[1..], input);
      assert forall k :: 1 <= k < |cmds| ==> cmds[k] == cmds[1..][k - 1];
      r
  }

  /** `FindCommand`: the first vocabulary entry occurring in `input`, or `("", false)`. */
  method FindCommand(input: string) returns (cmd: string, found: bool)
    ensures found <==> FirstMatch(Vocabulary, input).Some?
    ensures cmd == if found then FirstMatch(Vocabulary, input).value else ""
  {
    for i := 0 to |Vocabulary|
      invariant FirstMatch(Vocabulary, input) == FirstMatch(Vocabulary[i..], input)
    {
      assert Vocabulary[i..][0] == Vocabulary[i] && Vocabulary[i..][1..] == Vocabulary[i + 1..];
      if Contains(input, Vocabulary[i]) {
        return Vocabulary[i], true;
      }
    }
    return "", false;
  }

  /** Priority follows the vocabulary, not the input: in "edit get", `get` wins over `edit`. */
  lemma ListOrderWins()
    ensures FirstMatch(Vocabulary, "edit get") == Some("get")
  {
    assert "get" <= "edit get"[5..];
  }
}
