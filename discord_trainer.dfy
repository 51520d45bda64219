/**
 * The Discord trainer (DiscordTrainer.py): `clean_text` and the message filter that feeds
 * the batched training loop of `Batching.RunTraining`. A message is the pair of the `type`
 * and `content` fields the JSON streaming parser yields, each `None` when absent.
 */
module DiscordTrainer {
  import opened Wrappers
  import opened Strings
  import opened Patterns
  import opened Batching

  /** Texts must be longer than this to be kept. */
  const MIN_LENGTH: nat := 1

  datatype Message = Message(kind: Option<string>, content: Option<string>)

  /**
   * `clean_text`: `None` for an empty text; otherwise the text with user, nickname and role
   * mentions and URLs removed and the ends stripped, kept exactly when it is longer than
   * `MIN_LENGTH`.
   */
  function CleanText(text: Option<string>): (r: Option<string>)
    ensures !Truthy(text) ==> r.None?
    ensures r.Some? <==> Truthy(text) && |Strip(Sub(DiscordToken, "", text.value))| > MIN_LENGTH
    ensures r.Some? ==> Truthy(text) && r.value == Strip(Sub(DiscordToken, "", text.value))
    ensures r.Some? ==> |r.value| > MIN_LENGTH && Stripped(r.value)
  {
    if !Truthy(text) then None
    else
      var t := Strip(Sub(DiscordToken, "", text.value));
      if |t| > MIN_LENGTH then Some(t) else None
  }

  /** A message that is only a user mention `<@digits>` is dropped. */
  lemma MentionDropped(d: string)
    requires d != [] && AllChars(d, IsDigit)
    ensures CleanText(Some("<@" + (d + ">"))).None?
  {
    var s := "<@" + (d + ">");
    MentionMatch(d);
    assert s[|s|..] == [];
  }

  /** The loop body's filter: only `Default` messages are cleaned, every other type is skipped. */
  function Accept(m: Message): (r: Option<string>)
    ensures m.kind != Some("Default") ==> r.None?
  {
    if m.kind == Some("Default") then CleanText(m.content) else None
  }

  /**
   * The texts the training loop batches are exactly the cleaned contents of `Default`
   * messages that clean to something; each is stripped and longer than `MIN_LENGTH`.
   */
  lemma TrainingTexts(msgs: seq<Message>, t: string)
    ensures t in Accepted(msgs, Accept) <==>
      exists i :: 0 <= i < |msgs| && msgs[i].kind == Some("Default") && CleanText(msgs[i].content) == Some(t)
    ensures t in Accepted(msgs, Accept) ==> |t| > MIN_LENGTH && Stripped(t)
  {
    AcceptedMembers(msgs, Accept, t);
    if t in Accepted(msgs, Accept) {
      var i :| 0 <= i < |msgs| && Accept(msgs[i]) == Some(t) && t != [];
      assert msgs[i].kind == Some("Default") && CleanText(msgs[i].content) == Some(t);
    }
  }
}
