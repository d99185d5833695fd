/**
 The prompt builder of the NL-to-SQL pipeline: two fixed instruction texts,
 each with exactly one substituted value (the DBML schema document in the
 system prompt, the user's question in the user prompt), and the combined
 prompt that is sent to the model.
 */
module Prompt {
  import opened PyStr

  import opened PromptTemplates

  datatype PromptPair = PromptPair(system: string, user: string)

  /** `template.format(...)` for a template with one placeholder: the fixed text around it and the value in its place. */
  function Render(head: string, value: string, tail: string): string {
    head + value + tail
  }

  /** A rendered template keeps its fixed text at both ends, and the value can be read back from between them. */
  predicate RendersFrom(rendered: string, head: string, value: string, tail: string) {
    && |rendered| == |head| + |value| + |tail|
    && rendered[..|head|] == head
    && rendered[|head|..|head| + |value|] == value
    && rendered[|head| + |value|..] == tail
  }

  lemma RenderParts(head: string, value: string, tail: string)
    ensures RendersFrom(Render(head, value, tail), head, value, tail)
  {
  }

  /**
   `generate_prompt`: the system prompt is its fixed text around the schema
   document and the user prompt its fixed text around the question; the
   values are substituted once and can be read back from the prompts.
   */
  function GeneratePrompt(userQuery: string, schemaData: string): (p: PromptPair)
    ensures RendersFrom(p.system, Text(SystemHead), schemaData, Text(SystemTail))
    ensures RendersFrom(p.user, Text(UserHead), userQuery, Text(UserTail))
  {
    RenderParts(Text(SystemHead), schemaData, Text(SystemTail));
    RenderParts(Text(UserHead), userQuery, Text(UserTail));
    PromptPair(Render(Text(SystemHead), schemaData, Text(SystemTail)), Render(Text(UserHead), userQuery, Text(UserTail)))
  }

  /** The combined prompt sent to the model: system prompt, a blank line, user prompt, each readable back from its place. */
  function CombinedPrompt(p: PromptPair): (r: string)
    ensures |r| == |p.system| + |PromptSeparator| + |p.user|
    ensures r[..|p.system|] == p.system
    ensures r[|p.system|..|p.system| + |PromptSeparator|] == PromptSeparator
    ensures r[|p.system| + |PromptSeparator|..] == p.user
  {
    p.system + PromptSeparator + p.user
  }

  /**
   The prompt sent for a question over a schema: the rendered system prompt,
   with the schema in its place, then the blank line, then the rendered user
   prompt, with the question in its place.
   */
  function PromptFor(userQuery: string, schemaData: string): (r: string)
    ensures exists sys, user ::
      && r == sys + PromptSeparator + user
      && RendersFrom(sys, Text(SystemHead), schemaData, Text(SystemTail))
      && RendersFrom(user, Text(UserHead), userQuery, Text(UserTail))
  {
    var p := GeneratePrompt(userQuery, schemaData);
    CombinedRendered(p, Text(SystemHead), schemaData, Text(SystemTail), Text(UserHead), userQuery, Text(UserTail));
    CombinedPrompt(p)
  }

  /** The combined prompt of two rendered prompts is a rendered system prompt, the blank line and a rendered user prompt. */
  lemma CombinedRendered(p: PromptPair, sysHead: string, schemaData: string, sysTail: string,
                         userHead: string, userQuery: string, userTail: string)
    requires RendersFrom(p.system, sysHead, schemaData, sysTail)
    requires RendersFrom(p.user, userHead, userQuery, userTail)
    ensures exists sys, user ::
      && CombinedPrompt(p) == sys + PromptSeparator + user
      && RendersFrom(sys, sysHead, schemaData, sysTail)
      && RendersFrom(user, userHead, userQuery, userTail)
  {
    assert CombinedPrompt(p) == p.system + PromptSeparator + p.user;
  }

  /** A template with one placeholder renders different values to different texts. */
  lemma {:induction false} RenderInjective(head: string, tail: string, v1: string, v2: string)
    requires Render(head, v1, tail) == Render(head, v2, tail)
    ensures v1 == v2
  {
    RenderParts(head, v1, tail);
    RenderParts(head, v2, tail);
  }

  /** In a combined prompt, the system prompt determines the user prompt and the user prompt the system prompt. */
  lemma {:induction false} CombinedPromptDetermined(sys1: string, user1: string, sys2: string, user2: string)
    requires CombinedPrompt(PromptPair(sys1, user1)) == CombinedPrompt(PromptPair(sys2, user2))
    ensures sys1 == sys2 <==> user1 == user2
  {
    var c := sys1 + PromptSeparator + user1;
    if sys1 == sys2 {
      assert user1 == c[|sys1| + |PromptSeparator|..] == user2;
    }
    if user1 == user2 {
      assert sys1 == c[..|sys1|] == sys2;
    }
  }

  /** The rendered user prompt determines the question. */
  lemma {:induction false} UserPromptInjective(q1: string, q2: string, s1: string, s2: string)
    requires GeneratePrompt(q1, s1).user == GeneratePrompt(q2, s2).user
    ensures q1 == q2
  {
    RenderInjective(Text(UserHead), Text(UserTail), q1, q2);
  }

  /** The rendered system prompt determines the schema document. */
  lemma {:induction false} SystemPromptInjective(q1: string, q2: string, s1: string, s2: string)
    requires GeneratePrompt(q1, s1).system == GeneratePrompt(q2, s2).system
    ensures s1 == s2
  {
    RenderInjective(Text(SystemHead), Text(SystemTail), s1, s2);
  }

  /**
   Over one schema, equal combined prompts have equal user prompts. Kept
   apart so that the prompt texts stay out of the proof that uses it.
   */
  lemma {:induction false} SameSchemaSameUserPrompt(q1: string, q2: string, schemaData: string)
    requires PromptFor(q1, schemaData) == PromptFor(q2, schemaData)
    ensures GeneratePrompt(q1, schemaData).user == GeneratePrompt(q2, schemaData).user
  {
    var p1, p2 := GeneratePrompt(q1, schemaData), GeneratePrompt(q2, schemaData);
    CombinedPromptDetermined(p1.system, p1.user, p2.system, p2.user);
  }

  /** For one question, equal combined prompts have equal system prompts. */
  lemma {:induction false} SameQuestionSameSystemPrompt(userQuery: string, s1: string, s2: string)
    requires PromptFor(userQuery, s1) == PromptFor(userQuery, s2)
    ensures GeneratePrompt(userQuery, s1).system == GeneratePrompt(userQuery, s2).system
  {
    var p1, p2 := GeneratePrompt(userQuery, s1), GeneratePrompt(userQuery, s2);
    CombinedPromptDetermined(p1.system, p1.user, p2.system, p2.user);
  }

  /** Over one schema, two different questions never produce the same combined prompt. */
  lemma {:induction false} PromptDeterminesQuestion(q1: string, q2: string, schemaData: string)
    requires PromptFor(q1, schemaData) == PromptFor(q2, schemaData)
    ensures q1 == q2
  {
    SameSchemaSameUserPrompt(q1, q2, schemaData);
    UserPromptInjective(q1, q2, schemaData, schemaData);
  }

  /** For one question, two different schema documents never produce the same combined prompt. */
  lemma {:induction false} PromptDeterminesSchema(userQuery: string, s1: string, s2: string)
    requires PromptFor(userQuery, s1) == PromptFor(userQuery, s2)
    ensures s1 == s2
  {
    SameQuestionSameSystemPrompt(userQuery, s1, s2);
    SystemPromptInjective(userQuery, userQuery, s1, s2);
  }
}
