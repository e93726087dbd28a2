/** The record shared by both containers, and the "not found" value they return. */
module BidRecord {

  datatype Option<T> = None | Some(value: T)

  /** A bid. `bidId` is the key both containers work on; `title`, `fund` and
      `amount` are payload that no operation inspects. */
  datatype Bid = Bid(bidId: string, title: string, fund: string, amount: real)

  /** A default-constructed `Bid`: empty strings and an amount of 0.0. Both
      containers' Search returns it when no stored bid matches. */
  const EmptyBid: Bid := Bid("", "", "", 0.0)
}
