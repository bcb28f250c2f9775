/**
 * The "sender: text" form of channel messages: how it is rendered, split on two receive paths, and stripped again for
 * fan-out consumers.
 */
module ChannelText {
  import opened Common

  const MAX_SENDER := 50

  /** `text.find(": ")` */
  function Find(text: string): (r: Option<nat>)
    ensures r.Some? ==> r.value + 2 <= |text| && text[r.value] == ':' && text[r.value + 1] == ' '
  {
    if |text| < 2 then None
    else if text[0] == ':' && text[1] == ' ' then Some(0)
    else var r := Find(text[1..]); if r.Some? then Some(r.value + 1) else None
  }

  predicate Forbidden(c: char) {
    c == ':' || c == '[' || c == ']' || c == '\0'
  }

  predicate Clean(s: string) {
    forall i :: 0 <= i < |s| ==> !Forbidden(s[i])
  }

  /** The splitter of the sync path: sender and message. */
  function Split(text: string): (Option<string>, string) {
    var at := Find(text);
    if at.Some? && 0 < at.value < MAX_SENDER && Clean(text[..at.value])
    then (Some(text[..at.value]), text[at.value + 2..])
    else (None, text)
  }

  function Render(sender: string, message: string): string {
    sender + ": " + message
  }

  /** 1 to 49 characters, none of them a colon, a bracket or NUL. */
  predicate ValidSender(s: string) {
    1 <= |s| <= 49 && ':' !in s && '[' !in s && ']' !in s && '\0' !in s
  }

  lemma ValidIsClean(s: string)
    ensures ValidSender(s) <==> 0 < |s| < MAX_SENDER && Clean(s)
  {
    if ValidSender(s) {
      assert forall i :: 0 <= i < |s| ==> s[i] in s;
    }
  }

  /** The separator found is the first one. */
  lemma {:induction false} FindIsFirst(text: string, n: nat)
    requires n + 2 <= |text| && text[n] == ':' && text[n + 1] == ' '
    requires forall i :: 0 <= i < n ==> text[i] != ':'
    ensures Find(text) == Some(n)
  {
    if n > 0 {
      FindIsFirst(text[1..], n - 1);
    }
  }

  /** Main result 1: a rendered message is split back into its parts exactly when the sender is valid: 1 to 49
      characters, none of them a colon, a bracket or NUL. */
  lemma SplitRendered(sender: string, message: string)
    ensures Split(Render(sender, message)) == (Some(sender), message) <==> ValidSender(sender)
  {
    var t := Render(sender, message);
    ValidIsClean(sender);
    if ValidSender(sender) {
      assert forall i :: 0 <= i < |sender| ==> t[i] == sender[i];
      FindIsFirst(t, |sender|);
      assert t[..|sender|] == sender && t[|sender| + 2..] == message;
    }
  }

  /** Main result 2: splitting loses nothing.  A split text is the rendering of its parts; an unsplit one is no valid
      sender's rendering. */
  lemma RenderSplit(text: string)
    ensures var (sender, message) := Split(text);
            if sender.Some? then ValidSender(sender.value) && Render(sender.value, message) == text
            else message == text && forall s, m :: ValidSender(s) ==> Render(s, m) != text
  {
    var (sender, message) := Split(text);
    if sender.Some? {
      ValidIsClean(sender.value);
      var n := Find(text).value;
      assert text == text[..n] + text[n..n + 2] + text[n + 2..];
    } else {
      forall s, m | ValidSender(s) ensures Render(s, m) != text {
        SplitRendered(s, m);
      }
    }
  }

  // ------------------------------------------------------------ the decoder's path

  /** The decoder cuts the decrypted text at the first NUL before splitting it the same way. */
  function CutAtNul(text: string): string {
    if text == "" || text[0] == '\0' then "" else [text[0]] + CutAtNul(text[1..])
  }

  function DecoderSplit(text: string): (Option<string>, string) {
    Split(CutAtNul(text))
  }

  lemma {:induction false} CutIsPrefix(text: string)
    ensures |CutAtNul(text)| <= |text| && CutAtNul(text) == text[..|CutAtNul(text)|]
    ensures forall i :: 0 <= i < |CutAtNul(text)| ==> text[i] != '\0'
    ensures |CutAtNul(text)| < |text| ==> text[|CutAtNul(text)|] == '\0'
  {
    if text != "" && text[0] != '\0' {
      CutIsPrefix(text[1..]);
    }
  }

  /** A separator before the cut is found in either text; otherwise the cut text has none. */
  lemma {:induction false} FindInPrefix(text: string, n: nat)
    requires n <= |text|
    ensures Find(text[..n]) == if Find(text).Some? && Find(text).value + 2 <= n then Find(text) else None
  {
    if n >= 2 {
      assert text[..n][1..] == text[1..][..n - 1];
      FindInPrefix(text[1..], n - 1);
    }
  }

  lemma CutUnique(text: string, n: nat)
    requires n <= |text| && (forall i :: 0 <= i < n ==> text[i] != '\0') && (n < |text| ==> text[n] == '\0')
    ensures CutAtNul(text) == text[..n]
  {
    CutIsPrefix(text);
  }

  /** A sender found in the whole text lies before the first NUL. */
  lemma SenderBeforeCut(text: string)
    requires Split(text).0.Some?
    ensures Find(text).value + 2 <= |CutAtNul(text)|
  {
    CutIsPrefix(text);
    var at := Find(text).value;
    var n := |CutAtNul(text)|;
    var sender := text[..at];
    assert forall i :: 0 <= i < at ==> text[i] == sender[i];
  }

  lemma AgreeWhenSplit(text: string)
    requires Split(text).0.Some?
    ensures DecoderSplit(text) == (Split(text).0, CutAtNul(Split(text).1))
  {
    var at := Find(text).value;
    var n := |CutAtNul(text)|;
    CutIsPrefix(text);
    SenderBeforeCut(text);
    FindInPrefix(text, n);
    var cut := text[..n];
    assert CutAtNul(text) == cut && Find(cut) == Some(at);
    assert cut[..at] == text[..at];
    assert Split(cut) == (Some(text[..at]), cut[at + 2..]);
    var rest := text[at + 2..];
    assert Split(text) == (Some(text[..at]), rest);
    assert forall i :: 0 <= i < n - at - 2 ==> rest[i] == text[at + 2 + i];
    CutUnique(rest, n - at - 2);
    assert cut[at + 2..] == rest[..n - at - 2];
  }

  lemma AgreeWhenNotSplit(text: string)
    requires Split(text).0.None?
    ensures DecoderSplit(text) == (None, CutAtNul(text))
  {
    var n := |CutAtNul(text)|;
    CutIsPrefix(text);
    FindInPrefix(text, n);
    var cut := text[..n];
    if Find(cut).Some? {
      assert cut[..Find(cut).value] == text[..Find(cut).value];
    }
  }

  predicate HasNul(text: string) {
    exists i :: 0 <= i < |text| && text[i] == '\0'
  }

  /** Cutting changes exactly the texts with a NUL. */
  lemma CutChanges(text: string)
    ensures CutAtNul(text) == text <==> !HasNul(text)
  {
    CutIsPrefix(text);
    if !HasNul(text) {
      CutUnique(text, |text|);
      assert text[..|text|] == text;
    }
  }

  /** A sender holds no NUL, so the message has one exactly when the text has. */
  lemma NulIsInMessage(text: string)
    ensures HasNul(Split(text).1) <==> HasNul(text)
  {
    if Split(text).0.Some? {
      var at := Find(text).value;
      var sender, rest := text[..at], text[at + 2..];
      assert forall i :: 0 <= i < |rest| ==> rest[i] == text[at + 2 + i];
      if HasNul(text) {
        var i :| 0 <= i < |text| && text[i] == '\0';
        assert i < at ==> Forbidden(sender[i]);
        assert rest[i - at - 2] == '\0';
      }
    }
  }

  /** Main result 3: on every string both paths find the same sender, and the decoder's message is the sync path's
      message cut at its first NUL; so they agree altogether exactly on the texts without NUL. */
  lemma SplittersAgree(text: string)
    ensures DecoderSplit(text).0 == Split(text).0
    ensures DecoderSplit(text).1 == CutAtNul(Split(text).1)
    ensures DecoderSplit(text) == Split(text) <==> !HasNul(text)
  {
    if Split(text).0.Some? { AgreeWhenSplit(text); } else { AgreeWhenNotSplit(text); }
    CutChanges(Split(text).1);
    NulIsInMessage(text);
  }

  /** A text the two paths read differently. */
  lemma SplittersDisagree()
    ensures Split("a: b\0c") == (Some("a"), "b\0c") && DecoderSplit("a: b\0c") == (Some("a"), "b")
  {
    var text := "a: b\0c";
    FindIsFirst(text, 1);
    assert text[..1] == "a" && text[3..] == "b\0c";
    AgreeWhenSplit(text);
    var rest := "b\0c";
    CutUnique(rest, 1);
    assert rest[..1] == "b";
  }

  // ------------------------------------------------------------ fan-out

  /** The fan-out stripper.  A missing or non-string field is None. */
  function FanoutMessageText(text: Option<string>, isChannel: bool, senderName: Option<string>): string {
    if text.None? then ""
    else if !isChannel then text.value
    else if senderName.None? || senderName.value == "" then text.value
    else
      var at := Find(text.value);
      if at.Some? && text.value[..at.value] == senderName.value then text.value[at.value + 2..] else text.value
  }

  /** What is no channel text, or has no sender, is passed on as it is. */
  lemma OthersPassUnchanged(text: string, isChannel: bool, senderName: Option<string>)
    ensures !isChannel || senderName == None || senderName == Some("") ==>
              FanoutMessageText(Some(text), isChannel, senderName) == text
    ensures FanoutMessageText(None, isChannel, senderName) == ""
  {
  }

  /** A channel text is changed only by taking off exactly its rendered sender. */
  lemma OnlyTheSenderIsStripped(text: string, sender: string)
    ensures var r := FanoutMessageText(Some(text), true, Some(sender));
            r == text || (sender != "" && text == Render(sender, r))
  {
    var at := Find(text);
    if at.Some? {
      assert text == text[..at.value] + text[at.value..at.value + 2] + text[at.value + 2..];
      assert text[at.value..at.value + 2] == ": ";
    }
  }

  /** Main result 4: for every channel text, stripping with the sender the splitter found gives the splitter's
      message; so for a valid sender the original message comes back. */
  lemma FanoutRecoversMessage(text: string)
    ensures var (sender, message) := Split(text);
            sender.Some? ==> FanoutMessageText(Some(text), true, sender) == message
    ensures forall s, m :: ValidSender(s) && text == Render(s, m) ==> FanoutMessageText(Some(text), true, Some(s)) == m
  {
    forall s, m | ValidSender(s) && text == Render(s, m)
      ensures FanoutMessageText(Some(text), true, Some(s)) == m
    {
      SplitRendered(s, m);
    }
  }
}
