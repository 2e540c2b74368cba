/** `loadTopicData`: a fixed in-memory table of topic records, looked up by
    topic id. */
module Topics {
  import opened Options

  datatype Topic = Topic(title: string, description: string, category: string, introduction: string)

  const Vaping := Topic(
    "Vapeo: Realidades Sin Humo",
    "Mitos y verdades sobre el vapeo y sus efectos en la salud.",
    "Salud Física y Mental",
    "El vapeo se ha popularizado entre los jóvenes, pero ¿realmente conocemos sus efectos?")

  /** The table: one entry so far. */
  const TopicTable: map<string, Topic> := map["vapeo" := Vaping]

  /** `topicData[topicId] || null`: the record of a known topic, None (null)
      for any other id. A record is an object, so it is never falsy. */
  function LoadTopicData(topicId: string): (r: Option<Topic>)
    ensures r.Some? <==> topicId == "vapeo"
    ensures r.Some? ==> r.value == Vaping
  {
    if topicId in TopicTable then Some(TopicTable[topicId]) else None
  }
}
