/**
 * The streaming decoder: `StreamHandler` accumulates the tokens the language
 * model sends and, after each one, tries to read the unfinished buffer as a
 * partial project by closing it speculatively.
 */
module StreamDecoder {
  import opened Wrappers
  import opened Text
  import opened ProjectFormat

  /**
   * `json.loads`, left uninterpreted: it decodes a JSON text or fails. Every
   * candidate below ends in `}`, and a JSON text ending in `}` is an object,
   * so a success is always a dictionary.
   */
  type Parser = string -> Option<Dict>

  /** Closes a string inside a list inside the object. */
  const CLOSE_LIST: string := "\"]}"
  /** Closes a string directly inside the object. */
  const CLOSE_STRING: string := "\"}"

  /**
   * Parse one candidate and format it. It succeeds exactly when the candidate
   * parses to a well-typed dictionary, and then gives that dictionary's markdown.
   */
  function Attempt(parse: Parser, candidate: string): (r: Option<string>)
    ensures r.Some? <==> parse(candidate).Some? && WellTyped(parse(candidate).value)
    ensures r.Some? ==> r == Markdown(parse(candidate).value)
  {
    match parse(candidate)
    case None => None
    case Some(d) =>
      MarkdownDefinedIff(d);
      Markdown(d)
  }

  /**
   * The first of the two speculative closings that parses and formats: it
   * succeeds when either does, and the list closing wins when both do.
   */
  function Decode(parse: Parser, buffer: string): (r: Option<string>)
    ensures r.Some? <==> Attempt(parse, buffer + CLOSE_LIST).Some? || Attempt(parse, buffer + CLOSE_STRING).Some?
    ensures Attempt(parse, buffer + CLOSE_LIST).Some? ==> r == Attempt(parse, buffer + CLOSE_LIST)
    ensures r.Some? && Attempt(parse, buffer + CLOSE_LIST).None? ==> r == Attempt(parse, buffer + CLOSE_STRING)
  {
    var first := Attempt(parse, buffer + CLOSE_LIST);
    if first.Some? then first else Attempt(parse, buffer + CLOSE_STRING)
  }

  /**
   * The markdown kept after a token: the decoded candidate when there is one,
   * and the previous markdown, untouched, when both candidates raise.
   */
  function NextMarkdown(parse: Parser, buffer: string, previous: string): (r: string)
    ensures Decode(parse, buffer).Some? ==> r == Decode(parse, buffer).value
    ensures Decode(parse, buffer).None? ==> r == previous
  {
    Decode(parse, buffer).GetOr(previous)
  }

  class StreamHandler {
    const parse: Parser
    /** The name of the container's display function (`display_method`). */
    const displayMethod: string
    /** Whether the container has an attribute of that name (the `getattr` lookup). */
    const hasDisplay: bool
    /** Everything received so far. */
    var text: string
    /** The last markdown that decoded successfully. */
    var markdown: string
    /** The strings handed to the display function, oldest first. */
    var shown: seq<string>

    /** `__init__`, with the defaults `initial_text=""` and `display_method='markdown'`. */
    constructor (parse: Parser, hasDisplay: bool, initialText: string := "", displayMethod: string := "markdown")
      ensures this.parse == parse && this.displayMethod == displayMethod && this.hasDisplay == hasDisplay
      ensures text == initialText && markdown == "" && shown == []
    {
      this.parse := parse;
      this.displayMethod := displayMethod;
      this.hasDisplay := hasDisplay;
      text := initialText;
      markdown := "";
      shown := [];
    }

    /**
     * `on_llm_new_token`: the buffer grows by the token first; then, if the
     * display function exists, the markdown moves to the first candidate that
     * decodes (or stays) and is displayed once; otherwise `ValueError`.
     */
    method OnLlmNewToken(token: string) returns (r: Outcome<string>)
      modifies this
      ensures text == old(text) + token
      ensures hasDisplay ==> r == Pass
      ensures hasDisplay ==> markdown == NextMarkdown(parse, text, old(markdown))
      ensures hasDisplay ==> shown == old(shown) + [markdown]
      ensures !hasDisplay ==> r == Fail("Invalid display_method: " + displayMethod)
      ensures !hasDisplay ==> markdown == old(markdown) && shown == old(shown)
    {
      text := text + token;
      if hasDisplay {
        var decoded := false;
        var json := parse(text + CLOSE_LIST);
        if json.Some? {
          var m := FormatProjectInMarkdown(json.value);
          if m.Some? {
            markdown := m.value;
            decoded := true;
          }
        }
        if !decoded {
          json := parse(text + CLOSE_STRING);
          if json.Some? {
            var m := FormatProjectInMarkdown(json.value);
            if m.Some? {
              markdown := m.value;
            }
          }
        }
        shown := shown + [markdown];
        r := Pass;
      } else {
        r := Fail("Invalid display_method: " + displayMethod);
      }
    }

    /**
     * The callbacks the streaming chat call makes: `on_llm_new_token` once per
     * token, in order. The buffer grows by every token; with a display
     * function the markdown follows `Feed` and the markdown after each token
     * is displayed once, in order, after what was displayed before; without
     * one every call raises and the markdown and the display never change.
     */
    method OnLlmTokens(tokens: seq<string>) returns (r: Outcome<string>)
      modifies this
      ensures text == old(text) + Concat(tokens)
      ensures hasDisplay ==> r == Pass && markdown == Feed(parse, old(text), old(markdown), tokens).1
      ensures hasDisplay ==> shown == old(shown) + Displayed(parse, old(text), old(markdown), tokens)
      ensures hasDisplay && |tokens| > 0 ==> shown[|shown| - 1] == markdown
      ensures !hasDisplay ==> r == (if |tokens| > 0 then Fail("Invalid display_method: " + displayMethod) else Pass)
      ensures !hasDisplay ==> markdown == old(markdown) && shown == old(shown)
    {
      ghost var text0 := text;
      ghost var markdown0 := markdown;
      r := Pass;
      var k := 0;
      while k < |tokens|
        invariant 0 <= k <= |tokens|
        invariant text == Feed(parse, text0, markdown0, tokens[..k]).0
        invariant hasDisplay ==> markdown == Feed(parse, text0, markdown0, tokens[..k]).1
        invariant hasDisplay ==> r == Pass
        invariant hasDisplay ==> shown == old(shown) + Displayed(parse, text0, markdown0, tokens[..k])
        invariant !hasDisplay ==> r == (if k > 0 then Fail("Invalid display_method: " + displayMethod) else Pass)
        invariant !hasDisplay ==> markdown == markdown0 && shown == old(shown)
      {
        ghost var before := (text, markdown, shown);
        r := OnLlmNewToken(tokens[k]);
        if hasDisplay {
          FeedDisplayStep(parse, text0, markdown0, tokens, k, old(shown), before, (text, markdown, shown));
        } else {
          FeedStep(parse, text0, markdown0, tokens, k, before.0, Feed(parse, text0, markdown0, tokens[..k]).1);
        }
        k := k + 1;
      }
      assert tokens[..k] == tokens;
    }
  }

  /**
   * `(text, markdown)` after a handler with a display function receives
   * `tokens` one by one; the buffer is then the initial text followed by
   * exactly the tokens received.
   */
  function Feed(parse: Parser, text: string, markdown: string, tokens: seq<string>): (r: (string, string))
    ensures r.0 == text + Concat(tokens)
    decreases |tokens|
  {
    if |tokens| == 0 then (text, markdown)
    else
      var grown := text + tokens[0];
      ConcatAssoc(text, tokens[0], Concat(tokens[1..]));
      Feed(parse, grown, NextMarkdown(parse, grown, markdown), tokens[1..])
  }

  /**
   * Reference definition of the markdown after `tokens`: the decoding of the
   * longest buffer prefix (ending at a token boundary) that decodes, or the
   * initial markdown if none does.
   */
  function LastDecoded(parse: Parser, text: string, markdown: string, tokens: seq<string>): string
    decreases |tokens|
  {
    if |tokens| == 0 then markdown
    else match Decode(parse, text + Concat(tokens))
      case Some(m) => m
      case None => LastDecoded(parse, text, markdown, tokens[..|tokens| - 1])
  }

  /** Feeding one more token is one more step after the others. */
  lemma {:induction false} FeedSnoc(parse: Parser, text: string, markdown: string, tokens: seq<string>, token: string)
    ensures Feed(parse, text, markdown, tokens + [token])
         == var (t, m) := Feed(parse, text, markdown, tokens);
            (t + token, NextMarkdown(parse, t + token, m))
    decreases |tokens|
  {
    if |tokens| == 0 {
      assert tokens + [token] == [token];
      assert [token][1..] == [];
    } else {
      var grown := text + tokens[0];
      assert (tokens + [token])[1..] == tokens[1..] + [token];
      FeedSnoc(parse, grown, NextMarkdown(parse, grown, markdown), tokens[1..], token);
    }
  }

  /**
   * Reference definition of what the display function receives while
   * `tokens` arrive: the markdown after each token, oldest first.
   */
  function Displayed(parse: Parser, text: string, markdown: string, tokens: seq<string>): (r: seq<string>)
    ensures |r| == |tokens|
    decreases |tokens|
  {
    if |tokens| == 0 then []
    else Displayed(parse, text, markdown, tokens[..|tokens| - 1]) + [Feed(parse, text, markdown, tokens).1]
  }

  /** The `j`-th display is the markdown after the first `j + 1` tokens. */
  lemma {:induction false} DisplayedFeed(parse: Parser, text: string, markdown: string, tokens: seq<string>)
    ensures forall j :: 0 <= j < |tokens| ==>
      Displayed(parse, text, markdown, tokens)[j] == Feed(parse, text, markdown, tokens[..j + 1]).1
    decreases |tokens|
  {
    if |tokens| > 0 {
      var front := tokens[..|tokens| - 1];
      DisplayedFeed(parse, text, markdown, front);
      forall j | 0 <= j < |tokens|
        ensures Displayed(parse, text, markdown, tokens)[j] == Feed(parse, text, markdown, tokens[..j + 1]).1
      {
        if j < |front| {
          assert front[..j + 1] == tokens[..j + 1];
        } else {
          assert tokens[..j + 1] == tokens;
        }
      }
    }
  }

  /** One more token adds one display: the markdown after it. */
  lemma DisplayedStep(parse: Parser, text: string, markdown: string, tokens: seq<string>, k: nat)
    requires k < |tokens|
    ensures Displayed(parse, text, markdown, tokens[..k + 1])
         == Displayed(parse, text, markdown, tokens[..k]) + [Feed(parse, text, markdown, tokens[..k + 1]).1]
  {
    assert tokens[..k + 1][..k] == tokens[..k];
  }

  /**
   * One `OnLlmNewToken` call with a display function, from the state after
   * `tokens[..k]`, leads to the state after `tokens[..k + 1]`.
   */
  lemma FeedDisplayStep(parse: Parser, text: string, markdown: string, tokens: seq<string>, k: nat,
                        shown0: seq<string>, before: (string, string, seq<string>), after: (string, string, seq<string>))
    requires k < |tokens|
    requires (before.0, before.1) == Feed(parse, text, markdown, tokens[..k])
    requires before.2 == shown0 + Displayed(parse, text, markdown, tokens[..k])
    requires after.0 == before.0 + tokens[k] && after.1 == NextMarkdown(parse, after.0, before.1)
    requires after.2 == before.2 + [after.1]
    ensures (after.0, after.1) == Feed(parse, text, markdown, tokens[..k + 1])
    ensures after.2 == shown0 + Displayed(parse, text, markdown, tokens[..k + 1])
  {
    FeedStep(parse, text, markdown, tokens, k, before.0, before.1);
    DisplayedStep(parse, text, markdown, tokens, k);
  }

  /** `FeedSnoc` for the prefixes of one token sequence. */
  lemma FeedStep(parse: Parser, text: string, markdown: string, tokens: seq<string>, k: nat, t: string, m: string)
    requires k < |tokens| && (t, m) == Feed(parse, text, markdown, tokens[..k])
    ensures Feed(parse, text, markdown, tokens[..k + 1]) == (t + tokens[k], NextMarkdown(parse, t + tokens[k], m))
  {
    assert tokens[..k + 1] == tokens[..k] + [tokens[k]];
    FeedSnoc(parse, text, markdown, tokens[..k], tokens[k]);
  }

  /**
   * The markdown after a stream of tokens is the decoding of the last buffer
   * that decoded: each token replaces it only on success.
   */
  lemma {:induction false} FeedMarkdown(parse: Parser, text: string, markdown: string, tokens: seq<string>)
    ensures Feed(parse, text, markdown, tokens).1 == LastDecoded(parse, text, markdown, tokens)
    decreases |tokens|
  {
    if |tokens| > 0 {
      var front := tokens[..|tokens| - 1];
      FeedLast(parse, text, markdown, tokens);
      FeedMarkdown(parse, text, markdown, front);
      LastDecodedLast(parse, text, markdown, tokens);
    }
  }

  /** The last token of a stream is one `NextMarkdown` step on the whole buffer. */
  lemma FeedLast(parse: Parser, text: string, markdown: string, tokens: seq<string>)
    requires |tokens| > 0
    ensures Feed(parse, text, markdown, tokens).1
         == NextMarkdown(parse, text + Concat(tokens), Feed(parse, text, markdown, tokens[..|tokens| - 1]).1)
  {
    var front := tokens[..|tokens| - 1];
    var last := tokens[|tokens| - 1];
    assert front + [last] == tokens;
    assert Feed(parse, text, markdown, front).0 + last == text + Concat(tokens) by {
      ConcatAppend(front, [last]);
      assert Concat([last]) == last + "";
      assert last + "" == last;
      ConcatAssoc(text, Concat(front), last);
    }
    FeedSnoc(parse, text, markdown, front, last);
  }

  /** The reference definition takes the same step on the whole buffer. */
  lemma LastDecodedLast(parse: Parser, text: string, markdown: string, tokens: seq<string>)
    requires |tokens| > 0
    ensures LastDecoded(parse, text, markdown, tokens)
         == NextMarkdown(parse, text + Concat(tokens), LastDecoded(parse, text, markdown, tokens[..|tokens| - 1]))
  {
  }

  /**
   * However the final buffer was cut into tokens, if it decodes, the handler
   * ends with its buffer equal to it and its markdown equal to its decoding.
   * This holds for a stream cut off inside a string; a buffer that already
   * holds a complete object does not decode, because the parser rejects the
   * closing appended after it.
   */
  lemma FeedFinal(parse: Parser, text: string, markdown: string, tokens: seq<string>)
    requires |tokens| > 0 && Decode(parse, text + Concat(tokens)).Some?
    ensures Feed(parse, text, markdown, tokens)
         == (text + Concat(tokens), Decode(parse, text + Concat(tokens)).value)
  {
    FeedMarkdown(parse, text, markdown, tokens);
  }

  /** If no buffer along the way decodes, the markdown never changes. */
  lemma {:induction false} FeedUnchanged(parse: Parser, text: string, markdown: string, tokens: seq<string>)
    requires forall j :: 1 <= j <= |tokens| ==> Decode(parse, text + Concat(tokens[..j])).None?
    ensures Feed(parse, text, markdown, tokens).1 == markdown
    decreases |tokens|
  {
    FeedMarkdown(parse, text, markdown, tokens);
    if |tokens| > 0 {
      var front := tokens[..|tokens| - 1];
      assert tokens[..|tokens|] == tokens;
      forall j | 1 <= j <= |front| ensures Decode(parse, text + Concat(front[..j])).None? {
        assert front[..j] == tokens[..j];
      }
      FeedUnchanged(parse, text, markdown, front);
      FeedMarkdown(parse, text, markdown, front);
    }
  }
}
