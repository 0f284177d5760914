/** The records of the chat export and of the statistics derived from it. */
module Types {
  import opened Wrappers

  datatype Participant = Participant(name: string)

  /** One reaction on a message: the reaction glyph and who reacted. */
  datatype Reaction = Reaction(reaction: string, actor: string)

  datatype Photo = Photo(uri: string, creationTimestamp: Option<int>)

  datatype Video = Video(uri: string, creationTimestamp: Option<int>, thumbnail: Option<string>)

  datatype AudioFile = AudioFile(uri: string, creationTimestamp: Option<int>)

  /** A message record as the export stores it; the optional lists may be absent.
      The share, gif, file and sticker fields are never read by the core and are omitted. */
  datatype RawMessage = RawMessage(
    senderName: string,
    timestampMs: int,
    content: Option<string>,
    reactions: Option<seq<Reaction>>,
    photos: Option<seq<Photo>>,
    videos: Option<seq<Video>>,
    audioFiles: Option<seq<AudioFile>>)

  /** One export file: its participants, messages and optional title and group photo. */
  datatype Conversation = Conversation(
    participants: seq<Participant>,
    messages: seq<RawMessage>,
    title: Option<string>,
    groupPhotoUri: Option<string>)

  /** The normalised message every analyzer consumes. */
  datatype ParsedMessage = ParsedMessage(
    senderName: string,
    timestamp: int,
    content: Option<string>,
    reactions: seq<Reaction>,
    photos: seq<Photo>,
    videos: seq<Video>,
    audioFiles: seq<AudioFile>,
    hasContent: bool,
    isMediaOnly: bool)

  datatype DateRange = DateRange(start: int, end: int)

  datatype ChatStats = ChatStats(
    totalMessages: nat,
    totalPhotos: nat,
    totalVideos: nat,
    totalAudioMinutes: nat,
    participants: seq<string>,
    dateRange: DateRange)

  /** Per-sender rollup; `emojis` is a map in insertion order. */
  datatype ContributorStats = ContributorStats(
    name: string,
    messageCount: nat,
    photoCount: nat,
    videoCount: nat,
    audioMinutes: nat,
    totalCharacters: nat,
    uniqueWords: set<string>,
    emojiCount: nat,
    emojis: seq<(string, nat)>)

  datatype EmojiCount = EmojiCount(emoji: string, count: nat)

  datatype EmojiUsage = EmojiUsage(count: nat, uniqueEmojis: nat, topEmojis: seq<EmojiCount>)

  datatype LinguisticStats = LinguisticStats(
    vocabularyDiversity: real,
    averageMessageLength: real,
    emojiUsage: EmojiUsage)

  datatype ReactionStats = ReactionStats(message: ParsedMessage, reactionCount: nat, reactions: seq<Reaction>)

  datatype ChatHistoryDataPoint = ChatHistoryDataPoint(date: string, messageCount: nat, participantCount: nat)

  /** The aggregate the presentation layer consumes; `linguisticStats` is a map in insertion order. */
  datatype WrappedData = WrappedData(
    chatName: string,
    stats: ChatStats,
    contributors: seq<ContributorStats>,
    linguisticStats: seq<(string, LinguisticStats)>,
    topReactedImages: seq<ReactionStats>,
    topReactedVideos: seq<ReactionStats>,
    topReactedText: seq<ReactionStats>,
    chatHistory: seq<ChatHistoryDataPoint>,
    groupPhotoUri: Option<string>)
}
