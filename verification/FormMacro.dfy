/** The rewriter of the script itself: the macro call that is built for a form block
    (scripts/migrate_confirm_buttons.py:134-147, 219-255). */
module FormMacro {
  import opened Options
  import opened PyText
  import opened FormRewriter
  import opened FormExactness
  import JinjaUrl

  /** What is derived from the message, the block and the action: names, texts and size. */
  datatype Details = Details(macroName: string, caption: string, title: string, size: string, icon: string)

  type Judge = (string, string, string) -> Details

  /** The first double quote from `i` on, or the end. */
  function QuoteFrom(s: string, i: nat): (r: nat)
    requires i <= |s|
    ensures i <= r <= |s| && '"' !in s[i..r] && (r < |s| ==> s[r] == '"')
    decreases |s| - i
  {
    if i == |s| || s[i] == '"' then i
    else
      var r := QuoteFrom(s, i + 1);
      assert s[i..r] == [s[i]] + s[i + 1..r];
      r
  }

  /** `re.search(r'action="([^"]*)"', block)` from `i` on: the group. */
  function ActionFrom(block: string, i: nat): Option<string>
    decreases |block| - i
  {
    if i + 8 > |block| then None
    else if OccursAt(block, "action=\"", i) && QuoteFrom(block, i + 8) < |block|
    then Some(block[i + 8..QuoteFrom(block, i + 8)])
    else ActionFrom(block, i + 1)
  }

  /** Lines 136-137: double quotes are escaped. */
  function Escaped(s: string): string {
    if s == "" then "" else (if s[0] == '"' then "\\\"" else [s[0]]) + Escaped(s[1..])
  }

  /** Lines 244-250. */
  function Indent(block: string): string {
    if block != "" && block[0] in " \t" then [block[0]] + Indent(block[1..]) else ""
  }

  method IndentOf(block: string) returns (indent: string)
    ensures indent == Indent(block)
  {
    indent := "";
    var i := 0;
    assert block[0..] == block;
    while i < |block|
      invariant i <= |block| && Indent(block) == indent + Indent(block[i..])
    {
      assert block[i..][0] == block[i] && block[i..][1..] == block[i + 1..];
      if block[i] !in " \t" {
        break;
      }
      indent := indent + [block[i]];
      i := i + 1;
    }
  }

  /** The arguments of the call. */
  function Arguments(d: Details, message: string, url: string): seq<string> {
    [JinjaUrl.Literal(d.caption), JinjaUrl.Literal(Escaped(d.title)),
     JinjaUrl.Literal(Escaped(message)), JinjaUrl.Convert(url)]
    + (if d.size != "md" then ["size=" + JinjaUrl.Literal(d.size)] else [])
    + (if (d.icon != "delete" && d.macroName == "danger_button")
          || (d.icon != "warning" && d.macroName == "warning_button")
       then ["icon=" + JinjaUrl.Literal(d.icon)] else [])
  }

  /** `build_macro_call`. */
  function MacroCall(d: Details, message: string, url: string, indent: string): string {
    indent + "{{ " + d.macroName + "(" + JinjaUrl.Join(", ", Arguments(d, message, url)) + ") }}"
  }

  /** Lines 219-255: a block without an action is skipped. */
  function Script(judge: Judge): Rewrite {
    (message, block) =>
      var url := ActionFrom(block, 0);
      if url.None? then None
      else Some(MacroCall(judge(message, block, url.value), message, url.value, Indent(block)))
  }

  // ------------------------------------------------- what all its results share

  lemma {:induction false} ActionFound(block: string, i: nat)
    ensures ActionFrom(block, i).Some? <==> ActionBehind(block, i)
    decreases |block| - i
  {
    if i + 8 <= |block| {
      ActionAt(block, i);
      hide OccursAt, Action;
      if !(OccursAt(block, "action=\"", i) && QuoteFrom(block, i + 8) < |block|) {
        ActionFound(block, i + 1);
      }
    }
  }

  ghost predicate ActionBehind(block: string, i: nat) {
    exists k: nat, url :: i <= k && '"' !in url && OccursAt(block, Action(url), k)
  }

  lemma ActionAt(block: string, i: nat)
    requires i + 8 <= |block|
    ensures OccursAt(block, "action=\"", i) && QuoteFrom(block, i + 8) < |block| ==>
              var url := block[i + 8..QuoteFrom(block, i + 8)]; '"' !in url && OccursAt(block, Action(url), i)
    ensures forall url :: '"' !in url && OccursAt(block, Action(url), i) ==>
              OccursAt(block, "action=\"", i) && QuoteFrom(block, i + 8) == i + 8 + |url| < |block|
  {
    hide OccursAt, Action, QuoteFrom;
    if OccursAt(block, "action=\"", i) && QuoteFrom(block, i + 8) < |block| {
      ActionTaken(block, i);
    }
    forall url | '"' !in url && OccursAt(block, Action(url), i)
      ensures OccursAt(block, "action=\"", i) && QuoteFrom(block, i + 8) == i + 8 + |url| < |block|
    {
      ActionShape(block, i, url);
    }
  }

  lemma ActionTaken(block: string, i: nat)
    requires i + 8 <= |block| && OccursAt(block, "action=\"", i) && QuoteFrom(block, i + 8) < |block|
    ensures OccursAt(block, Action(block[i + 8..QuoteFrom(block, i + 8)]), i)
  {
    var q := QuoteFrom(block, i + 8);
    assert block[q] == '"';
    hide QuoteFrom;
    assert block[i..q + 1] == block[i..i + 8] + block[i + 8..q] + "\"";
  }

  lemma ActionShape(block: string, i: nat, url: string)
    requires '"' !in url && OccursAt(block, Action(url), i)
    ensures OccursAt(block, "action=\"", i) && QuoteFrom(block, i + 8) == i + 8 + |url| < |block|
  {
    var word, e := Action(url), i + 8 + |url|;
    SliceOfSlice(block, i, i + |word|, 0, 8);
    SliceOfSlice(block, i, i + |word|, 8, 8 + |url|);
    assert word[0..8] == "action=\"" && word[8..8 + |url|] == url && block[e] == word[8 + |url|] == '"';
    QuoteIs(block, i + 8, e);
  }

  lemma {:induction false} QuoteIs(s: string, i: nat, e: nat)
    requires i <= e < |s| && s[e] == '"' && '"' !in s[i..e]
    ensures QuoteFrom(s, i) == e
    decreases e - i
  {
    if i < e {
      assert s[i..e][0] == s[i] && s[i..e] == [s[i]] + s[i + 1..e];
      QuoteIs(s, i + 1, e);
    }
  }

  lemma CallEnds(d: Details, message: string, url: string, indent: string)
    ensures var call := MacroCall(d, message, url, indent); call != "" && call[|call| - 1] == '}'
  {
    hide Arguments, JinjaUrl.Join;
  }

  /** The script's rewriter is one for which the exactness theorems speak: its calls end
      in braces, and it takes every block with an action. */
  lemma ScriptRewrites(judge: Judge)
    ensures EndsInBrace(Script(judge)) && TakesActions(Script(judge))
  {
    forall message, block | Script(judge)(message, block).Some?
      ensures var call := Script(judge)(message, block).value; call != "" && call[|call| - 1] == '}'
    {
      hide ActionFrom, Indent, MacroCall;
      var url := ActionFrom(block, 0).value;
      CallEnds(judge(message, block, url), message, url, Indent(block));
    }
    forall message, block | HasAction(block) ensures Script(judge)(message, block).Some? {
      ActionFound(block, 0);
      hide OccursAt;
    }
  }

  /** So for the script itself: with every action on the line of its opening tag, the loop
      is the simultaneous substitution exactly if nobody without a form is at risk. */
  lemma ScriptExactly(original: string, matches: seq<Match>, judge: Judge)
    requires Confirms(original, matches) && FormsDisjoint(original, matches) && ActionsInline(original)
    requires MacroCalls(original, matches, Script(judge)) && AllReach(original, matches, Script(judge))
    ensures RewrittenFrom(original, matches, 0, Script(judge)) == Substituted(original, 0, matches, Script(judge))
       <==> Harmless(original, matches, Script(judge))
  {
    hide Script, Confirms, FormsDisjoint, ActionsInline, MacroCalls, AllReach, Harmless, EndsInBrace, TakesActions;
    ScriptRewrites(judge);
    HarmlessExactly(original, matches, Script(judge));
  }
}
