/** The send handler of the compose form: validate the subject, then the
    content, then find the recipient, then send. Everything else the page
    does (rendering, redirect, the sending spinner) is not modelled. */
module Compose {
  import opened Wrappers
  import opened Types
  import opened Text
  import opened Storage
  import opened Auth

  const SubjectMissing := "Please enter a subject"
  const LetterMissing := "Please write your letter"
  const RecipientMissing := "Could not find recipient"

  /** The content counts as empty when it trims to nothing, is one of three
      markups an empty editor produces, or trims to nothing once every
      `<...>` run is removed. */
  predicate IsEmptyContent(content: string) {
    Trim(content) == [] ||
    content == "<p></p>" ||
    content == "<br>" ||
    content == "<div><br></div>" ||
    Trim(StripTags(content)) == []
  }

  /** Markup made of tags `s[..n]` and `s[n..]` (or the single tag `s`)
      strips to nothing. */
  lemma TwoTagsStrip(s: string, n: nat)
    requires n <= |s| && IsTag(s[n..]) && (n == 0 || IsTag(s[..n]))
    ensures StripTags(s) == []
  {
    LeadingTagStrips(s[n..], []);
    assert s[n..] + [] == s[n..];
    if n > 0 {
      LeadingTagStrips(s[..n], s[n..]);
      assert s[..n] + s[n..] == s;
    }
  }

  /** Each markup an empty editor produces is nothing but tags. */
  lemma EmptyEditorMarkupHasNoText(s: string)
    requires s == "<p></p>" || s == "<br>" || s == "<div><br></div>"
    ensures StripTags(s) == []
  {
    if s == "<p></p>" {
      TwoTagsStrip(s, 3);
    } else if s == "<br>" {
      TwoTagsStrip(s, 0);
    } else {
      DivStrips(s);
    }
  }

  lemma DivStrips(s: string)
    requires s == "<div><br></div>"
    ensures StripTags(s) == []
  {
    DivOpensWithTag(s);
    BrThenCloseStrips(s[5..]);
    assert s[..5] + s[5..] == s;
    LeadingTagStrips(s[..5], s[5..]);
  }

  lemma DivOpensWithTag(s: string)
    requires s == "<div><br></div>"
    ensures IsTag(s[..5]) && s[5..] == "<br></div>"
  {
  }

  lemma BrThenCloseStrips(t: string)
    requires t == "<br></div>"
    ensures StripTags(t) == []
  {
    TwoTagsStrip(t, 4);
  }

  /** The three literal checks add nothing: content is empty exactly when
      what is left after removing its tags is whitespace. */
  lemma EmptyContentIsBlankText(content: string)
    ensures IsEmptyContent(content) <==> Blank(StripTags(content))
  {
    TrimmedEmptyIffBlank(content);
    TrimmedEmptyIffBlank(StripTags(content));
    if content == "<p></p>" || content == "<br>" || content == "<div><br></div>" {
      EmptyEditorMarkupHasNoText(content);
    }
    StripTagsSound(content);
    if Blank(content) {
      BlankShrinks(content, StripTags(content));
    }
  }

  /** The outcome of pressing "send": the message shown (empty when none)
      and the letter store afterwards. */
  datatype SendAttempt = SendAttempt(error: string, store: Store)

  /** The form checks: the subject first, then the content. */
  function Validate(subject: string, content: string): (r: Option<string>)
    ensures Blank(subject) ==> r == Some(SubjectMissing)
    ensures !Blank(subject) && Blank(StripTags(content)) ==> r == Some(LetterMissing)
    ensures !Blank(subject) && !Blank(StripTags(content)) ==> r == None
  {
    TrimmedEmptyIffBlank(subject);
    EmptyContentIsBlankText(content);
    if Trim(subject) == [] then Some(SubjectMissing)
    else if IsEmptyContent(content) then Some(LetterMissing)
    else None
  }

  /** `sender` addresses the letter to the other account, exactly as typed,
      and sends it; without another account nothing is sent. */
  function Deliver(st: Store, dir: Directory, sender: User, subject: string, content: string,
                   id: string, ts: int): (r: SendAttempt)
    ensures (forall i :: 0 <= i < |dir| ==> dir[i].id == sender.id) ==>
      r == SendAttempt(RecipientMissing, st)
    ensures (exists i :: 0 <= i < |dir| && dir[i].id != sender.id) ==>
      && r.error == ""
      && |r.store| == |st| + 1 && r.store[..|st|] == st
      && var l := r.store[|st|];
         && l.from == sender.id && l.to != l.from
         && (exists i :: 0 <= i < |dir| && dir[i].id == l.to)
         && l.to == GetOtherUser(dir, sender.id).value.id
         && l.subject == subject && l.content == content
         && l.id == id && l.timestamp == ts && !l.read
  {
    match GetOtherUser(dir, sender.id)
    case None => SendAttempt(RecipientMissing, st)
    case Some(recipient) =>
      var draft := Draft(sender.id, recipient.id, subject, content);
      SendAttempt("", SendLetter(st, draft, id, ts))
  }

  /** The send handler. `user` is the logged-in account, if any; `id` and
      `ts` are what the store stamps on the letter. Every rejection leaves
      the store as it was. */
  function HandleSend(st: Store, dir: Directory, user: Option<User>,
                      subject: string, content: string, id: string, ts: int): (r: SendAttempt)
    ensures Blank(subject) ==> r == SendAttempt(SubjectMissing, st)
    ensures !Blank(subject) && Blank(StripTags(content)) ==> r == SendAttempt(LetterMissing, st)
    ensures !Blank(subject) && !Blank(StripTags(content)) && user.None? ==> r == SendAttempt("", st)
    ensures !Blank(subject) && !Blank(StripTags(content)) && user.Some? ==>
      r == Deliver(st, dir, user.value, subject, content, id, ts)
  {
    match Validate(subject, content)
    case Some(message) => SendAttempt(message, st)
    case None =>
      if user.None? then SendAttempt("", st)
      else Deliver(st, dir, user.value, subject, content, id, ts)
  }

  /** With the shipped accounts, a valid letter from either one goes to the
      other. */
  lemma ShippedSendReachesOther(st: Store, k: nat, subject: string, content: string, id: string, ts: int)
    requires k < 2 && !Blank(subject) && !Blank(StripTags(content))
    ensures var r := HandleSend(st, Users, Some(Users[k]), subject, content, id, ts);
      |r.store| == |st| + 1 && r.store[|st|].from == Users[k].id &&
      r.store[|st|].to == Users[1 - k].id
  {
    ShippedDirectory();
    assert Users[1 - k].id != Users[k].id;
  }
}
