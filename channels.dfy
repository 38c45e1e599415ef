/** A Go channel as the pipeline uses it: a queue of the values sent on it,
    and whether it has been closed. Receivers are outside the model, so the
    queue only grows. */
module Channels {

  class Channel<T> {
    var items: seq<T>
    var closed: bool

    constructor ()
      ensures items == [] && !closed
    {
      items := [];
      closed := false;
    }

    /** `ch <- x`; sending on a closed channel panics in Go. */
    method Send(x: T)
      requires !closed
      modifies this
      ensures items == old(items) + [x] && !closed
    {
      items := items + [x];
    }

    /** `close(ch)`; closing twice panics in Go. */
    method Close()
      requires !closed
      modifies this
      ensures closed && items == old(items)
    {
      closed := true;
    }
  }
}
