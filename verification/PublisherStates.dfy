/** The states of a publisher and the graph of their changes. */
module PublisherStates {

  datatype PublisherState = Claimed | Verified | Suspended | Revoked

  predicate Allowed(from: PublisherState, to: PublisherState) {
    match from
    case Claimed => to.Verified? || to.Suspended? || to.Revoked?
    case Verified => to.Suspended? || to.Revoked?
    case Suspended => to.Verified? || to.Revoked?
    case Revoked => false
  }
}
