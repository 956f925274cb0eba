/** The part of a Slack `message` event the bots look at. Every field may be
    missing from the payload; a missing field is `None`. */
module Events {
  import opened Text
  import opened Seqs

  datatype Event = Event(
    kind: Option<String>,
    subtype: Option<String>,
    user: Option<String>,
    text: Option<String>,
    botId: Option<String>,
    channel: String)

  /** JavaScript truthiness of an optional string: present and non-empty. */
  predicate Truthy(o: Option<String>) {
    o.Some? && o.value != []
  }

  /** `value || ''`. */
  function OrEmpty(o: Option<String>): (r: String)
    ensures Truthy(o) ==> r == o.value
    ensures !Truthy(o) ==> r == []
  {
    if o.Some? then o.value else []
  }

  /** `event.type === 'message' && !event.subtype`, for a present event. */
  predicate IsPlainMessage(ev: Event) {
    ev.kind == Some("message") && !Truthy(ev.subtype)
  }
}
