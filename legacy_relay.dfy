/**
  The earlier relay at the repository root (telegramClient.js:105-136): every
  post with media is forwarded unchanged, every other post is relayed as a
  new-post notice, and a photo is also downloaded to disk, a failure of which
  is only logged.
 */
module LegacyRelay {
  import opened Common
  import opened Telegram

  /** What the handler does for one post: whether it calls `downloadMedia`,
      whether the photo ends up saved to disk, and the outbound calls it
      makes, in order. */
  datatype Reaction = Reaction(downloads: bool, saved: bool, sent: seq<Action>)

  /** The handler for one post. `downloadOk` is whether `downloadMedia`
      resolves; its rejection is caught and logged (telegramClient.js:113-119). */
  function HandlePost(msg: Message, channel: Channel, downloadOk: bool): (r: Reaction)
    ensures r.downloads <==> msg.media == Photo
    ensures r.saved <==> msg.media == Photo && downloadOk
    ensures |r.sent| == 1
    ensures r.sent[0].Forward? <==> msg.media != NoMedia
    ensures msg.media != NoMedia ==> r.sent[0] == Forward(Me, [msg], channel)
    ensures msg.media == NoMedia ==> r.sent[0] == SendMessage(Me, NewPostNotice(channel.title, msg.text), None)
  {
    var downloads := msg.media == Photo;
    var saved := downloads && downloadOk;
    if msg.media != NoMedia then
      Reaction(downloads, saved, [Forward(Me, [msg], channel)])
    else
      Reaction(downloads, saved, [SendMessage(Me, NewPostNotice(channel.title, msg.text), None)])
  }

  /** A failed download changes nothing that is sent: a photo is forwarded
      whether or not it could be saved, although only a successful download
      saves it. */
  lemma DownloadFailureHarmless(msg: Message, channel: Channel)
    ensures HandlePost(msg, channel, false).sent == HandlePost(msg, channel, true).sent
    ensures msg.media == Photo ==> HandlePost(msg, channel, true).saved && !HandlePost(msg, channel, false).saved
    ensures msg.media == Photo ==> HandlePost(msg, channel, false).sent == [Forward(Me, [msg], channel)]
  {
  }
}
