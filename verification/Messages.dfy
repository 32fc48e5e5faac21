/** What travels on the policy channel. */
module Messages {
  import opened Decimal

  /** A host policy event, with the node selector that routes it. */
  datatype HostPolicyEvent = HostPolicyEvent(kind: string, name: string, matchLabels: map<string, string>)

  datatype Message = Message(event: HostPolicyEvent, identity: Identity, close: bool)
}
