/** `build_prompt_with_context` of app.py: the persona, the style guard, an optional bulleted
    context block, and the user turn, assembled into one string. */
module Prompt {
  import opened Text
  import opened Retrieval

  /** `STYLE_GUARD`: the extra instruction against meta answers. */
  const StyleGuard: string :=
    "DİKKAT: Yalnızca doğrudan cevabı ver. "
    + "‘şöyle yanıt verilir’, ‘taslak’, ‘örnek cevap’ gibi META açıklamalar YASAK. "
    + "Ayten adıyla, sıcak ve kısa cümlelerle TÜRKÇE konuş."

  /** The persona (`system_prompt`, read from a file) followed by the style guard. */
  function Header(systemPrompt: string): string
  {
    systemPrompt + "\n\n" + StyleGuard
  }

  /** The closing user turn both branches end with. */
  function UserTurn(userMsg: string): string
  {
    "Kullanıcı: " + userMsg + "\nAyten:"
  }

  /** One context line per retrieved pair: its text after a `"- "` bullet; the metadata is unused. */
  function Bullets(ctx: seq<Passage>): (lines: seq<string>)
    ensures |lines| == |ctx|
    ensures forall k | 0 <= k < |ctx| :: lines[k] == "- " + ctx[k].text
  {
    seq(|ctx|, k requires 0 <= k < |ctx| => "- " + ctx[k].text)
  }

  /** The context lines, one per line. */
  function ContextBlock(ctx: seq<Passage>): string
  {
    Join("\n", Bullets(ctx))
  }

  /** The fixed instruction the non-empty branch puts between the style guard and the context. */
  const ContextIntro: string :=
    "---\n"
    + "Aşağıdaki BAĞLAMA dayanarak yanıt ver. Bağlamda olmayan bilgi ekleme."
    + "Belge adı/sayfa yazma.\n"

  /** The context block with its heading and closing rule. */
  function ContextSection(ctx: seq<Passage>): string
  {
    "BAĞLAM:\n" + ContextBlock(ctx) + "\n---"
  }

  /** `build_prompt_with_context(user_msg, ctx_pairs)` with the persona as a parameter. */
  function BuildPrompt(systemPrompt: string, userMsg: string, ctx: seq<Passage>): (r: string)
    ensures Header(systemPrompt) <= r
    ensures EndsWith(r, UserTurn(userMsg))
    ensures |ctx| == 0 ==> r == systemPrompt + "\n\n" + StyleGuard + "\n\nKullanıcı: " + userMsg + "\nAyten:"
    ensures |ctx| > 0 ==> Contains(r, "BAĞLAM:\n" + ContextBlock(ctx) + "\n---")
  {
    if |ctx| == 0 then
      var r := Header(systemPrompt) + "\n\n" + UserTurn(userMsg);
      assert r == systemPrompt + "\n\n" + StyleGuard + "\n\nKullanıcı: " + userMsg + "\nAyten:";
      r
    else
      var pre := Header(systemPrompt) + "\n" + ContextIntro;
      var r := pre + ContextSection(ctx) + "\n\n" + UserTurn(userMsg);
      assert OccursAt(r, ContextSection(ctx), |pre|);
      r
  }

  /** With context, the prompt is the header, the instruction to answer only from the context,
      the context section and a blank line, in this order, followed by the user turn. */
  lemma ContextPromptLayout(systemPrompt: string, userMsg: string, ctx: seq<Passage>)
    requires |ctx| > 0
    ensures Header(systemPrompt) + "\n" + ContextIntro + ContextSection(ctx) + "\n\n"
         <= BuildPrompt(systemPrompt, userMsg, ctx)
  {
  }

  // ---------------------------------------------------------------------------

  /** Only the texts of the context pairs matter: their metadata never reaches the prompt. */
  lemma PromptIgnoresMetadata(systemPrompt: string, userMsg: string, c1: seq<Passage>, c2: seq<Passage>)
    requires |c1| == |c2|
    requires forall k | 0 <= k < |c1| :: c1[k].text == c2[k].text
    ensures BuildPrompt(systemPrompt, userMsg, c1) == BuildPrompt(systemPrompt, userMsg, c2)
  {
    assert Bullets(c1) == Bullets(c2);
  }

  /** Every supplied text appears in the prompt as a bullet line `"- " + txt`. */
  lemma EveryTextInPrompt(systemPrompt: string, userMsg: string, ctx: seq<Passage>)
    ensures forall k | 0 <= k < |ctx| :: Contains(BuildPrompt(systemPrompt, userMsg, ctx), "- " + ctx[k].text)
  {
    if |ctx| > 0 {
      var r := BuildPrompt(systemPrompt, userMsg, ctx);
      var section := "BAĞLAM:\n" + ContextBlock(ctx) + "\n---";
      ContainsConcat("BAĞLAM:\n" + ContextBlock(ctx), "\n---");
      ContainsConcat("BAĞLAM:\n", ContextBlock(ctx));
      ContainsTrans(section, "BAĞLAM:\n" + ContextBlock(ctx), ContextBlock(ctx));
      ContainsTrans(r, section, ContextBlock(ctx));
      JoinContainsParts("\n", Bullets(ctx));
      forall k | 0 <= k < |ctx| ensures Contains(r, "- " + ctx[k].text) {
        ContainsTrans(r, ContextBlock(ctx), Bullets(ctx)[k]);
      }
    }
  }

  /** When no text contains a line break (chunks never do), splitting the context block at line
      breaks gives back the bullet lines, one per pair, in input order. */
  lemma ContextLinesRecoverable(ctx: seq<Passage>)
    requires |ctx| > 0
    requires forall k | 0 <= k < |ctx| :: '\n' !in ctx[k].text
    ensures SplitOn(ContextBlock(ctx), '\n') == Bullets(ctx)
  {
    var lines := Bullets(ctx);
    forall k | 0 <= k < |lines| ensures '\n' !in lines[k] {
      assert lines[k] == "- " + ctx[k].text;
    }
    assert "\n" == ['\n'];
    SplitOfJoin(lines, '\n');
  }
}
