/**
  What the two relays see of a channel post and what they send to the
  account's own "Saved Messages" chat ("me"). The GramJS client is not
  modelled: its `forwardMessages` and `sendMessage` calls are values of
  `Action`, and a handler returns the calls it makes, in order.
 */
module Telegram {
  import opened Common

  /** The kind of media a post carries. In GramJS `msg.photo` is set only
      when `msg.media` holds a photo, so a photo is one kind of media. */
  datatype Media = NoMedia | Photo | OtherMedia

  /** A channel post: its id, its text (`msg.message`) and its media. */
  datatype Message = Message(id: int, text: string, media: Media)

  /** The monitored channel as `client.getEntity` returns it. */
  datatype Channel = Channel(id: int, title: string)

  /** An outbound client call. */
  datatype Action =
    | Forward(to: string, messages: seq<Message>, fromPeer: Channel)
    | SendMessage(to: string, text: string, file: Option<string>)

  /** The peer both relays deliver to. */
  const Me: string := "me"

  /** The part of the new-post notice before the post's text. */
  function NewPostHeader(title: string): string {
    "🔔 Новый пост в \"" + title + "\":\n\n"
  }

  /** The text relayed for a post without media,
      `🔔 Новый пост в "<title>":\n\n<msg.message>`: the header naming the
      channel, then the post's text, which can be read back from the notice. */
  function NewPostNotice(title: string, body: string): (r: string)
    ensures |NewPostHeader(title)| <= |r|
    ensures r[..|NewPostHeader(title)|] == NewPostHeader(title)
    ensures r[|NewPostHeader(title)|..] == body
  {
    var h := NewPostHeader(title);
    assert (h + body)[..|h|] == h && (h + body)[|h|..] == body;
    h + body
  }

  /** The two fixed parts of the "text not recognised" notice. */
  const UnrecognisedHead: string := "🔔 В \""
  const UnrecognisedTail: string := "\" найдено изображение, но текст не распознан."

  /** The notice sent with the processed image when no text was recognised:
      the fixed head, the channel's title, which can be read back, and the
      fixed tail. */
  function UnrecognisedNotice(title: string): (r: string)
    ensures |r| == |UnrecognisedHead| + |title| + |UnrecognisedTail|
    ensures r[..|UnrecognisedHead|] == UnrecognisedHead
    ensures r[|UnrecognisedHead|..|UnrecognisedHead| + |title|] == title
    ensures r[|UnrecognisedHead| + |title|..] == UnrecognisedTail
  {
    var r := UnrecognisedHead + title + UnrecognisedTail;
    assert r[..|UnrecognisedHead|] == UnrecognisedHead;
    assert r[|UnrecognisedHead|..|UnrecognisedHead| + |title|] == title;
    assert r[|UnrecognisedHead| + |title|..] == UnrecognisedTail;
    r
  }

  /** Hence two posts with different texts are relayed as different notices. */
  lemma NewPostNoticeInjective(title: string, body1: string, body2: string)
    requires NewPostNotice(title, body1) == NewPostNotice(title, body2)
    ensures body1 == body2
  {
  }

  /** Likewise two channels with different titles give different
      "text not recognised" notices. */
  lemma UnrecognisedNoticeInjective(title1: string, title2: string)
    requires UnrecognisedNotice(title1) == UnrecognisedNotice(title2)
    ensures title1 == title2
  {
    assert |title1| == |title2|;
  }

  /** A reader can always tell the two notices apart: after the bell they
      start with different words. */
  lemma NoticesDistinct(title1: string, title2: string, body: string)
    ensures UnrecognisedNotice(title1) != NewPostNotice(title2, body)
  {
    assert UnrecognisedNotice(title1)[2] == 'В';
    assert NewPostNotice(title2, body)[2] == 'Н';
  }
}
