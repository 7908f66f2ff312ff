/**
 * The oneshot channel (kernel/src/async_/oneshot.rs): a sender hands one
 * value to a receiver future through a shared cell holding the channel
 * state and the waker of the task waiting on the receiver.
 *
 * The cell is the class `Channel`; the `Sender` and the `Receiver` both
 * name the same object, which stands for the shared `Arc<Spinlock<..>>`.
 * A waker is named by a `nat` (the task it wakes). A `panic!` is the error
 * outcome `Err(..)`, naming which panic.
 */
module Oneshot {
  import opened Wrappers

  /** `ChannelState`. */
  datatype ChannelState<T> = Pending | Ready(value: T) | Dropped

  /** `Poll<T>`. */
  datatype PollResult<T> = PollPending | PollReady(value: T)

  /** The three panics of the channel. */
  datatype Panic = SendCalledTwice | SendAfterDrop | SenderDropped

  class Channel<T> {
    var state: ChannelState<T>
    var waker: Option<nat>

    /** `channel()`: a new channel is pending, with no waker. */
    constructor ()
      ensures state == Pending && waker == None
    {
      state := Pending;
      waker := None;
    }

    /**
     * `Sender::send`: the state is swapped for `Pending`; from `Pending` it
     * becomes `Ready(value)` and the stored waker, if any, is taken and woken
     * (returned); from `Ready` or `Dropped` it panics.
     */
    method Send(value: T) returns (r: Result<Option<nat>, Panic>)
      modifies this
      ensures r.Ok? <==> old(state).Pending?
      ensures r.Ok? ==> state == Ready(value) && r.value == old(waker) && waker == None
      ensures old(state).Ready? ==> r == Err(SendCalledTwice)
      ensures old(state).Dropped? ==> r == Err(SendAfterDrop)
      ensures r.Err? ==> state == Pending && waker == old(waker)
    {
      var previous := state;
      state := Pending;
      match previous {
        case Pending =>
          state := Ready(value);
        case Ready(_) =>
          return Err(SendCalledTwice);
        case Dropped =>
          return Err(SendAfterDrop);
      }
      r := Ok(waker);
      waker := None;
    }

    /**
     * `Receiver::poll` as written: the state is swapped for `Dropped`. From
     * `Pending` it stores the waker and returns pending, leaving the state
     * `Dropped`; from `Ready(v)` it returns `v`; from `Dropped` it panics.
     */
    method PollAsWritten(cx: nat) returns (r: Result<PollResult<T>, Panic>)
      modifies this
      ensures state == Dropped
      ensures old(state).Pending? ==> r == Ok(PollPending) && waker == Some(cx)
      ensures old(state).Ready? ==> r == Ok(PollReady(old(state).value)) && waker == old(waker)
      ensures old(state).Dropped? ==> r == Err(SenderDropped) && waker == old(waker)
    {
      var previous := state;
      state := Dropped;
      match previous
      case Pending =>
        waker := Some(cx);
        r := Ok(PollPending);
      case Ready(v) =>
        r := Ok(PollReady(v));
      case Dropped =>
        r := Err(SenderDropped);
    }

    /**
     * `Receiver::poll` as intended: a pending channel stays pending (with the
     * waker stored), so that the value sent later is delivered; a ready
     * channel gives up its value and becomes `Dropped`; a dropped one panics.
     */
    method Poll(cx: nat) returns (r: Result<PollResult<T>, Panic>)
      modifies this
      ensures old(state).Pending? ==> r == Ok(PollPending) && state == Pending && waker == Some(cx)
      ensures old(state).Ready? ==> r == Ok(PollReady(old(state).value)) && state == Dropped && waker == old(waker)
      ensures old(state).Dropped? ==> r == Err(SenderDropped) && state == Dropped && waker == old(waker)
    {
      var previous := state;
      state := Dropped;
      match previous
      case Pending =>
        state := Pending;
        waker := Some(cx);
        r := Ok(PollPending);
      case Ready(v) =>
        r := Ok(PollReady(v));
      case Dropped =>
        r := Err(SenderDropped);
    }
  }

  /** A value sent before the first poll is what that poll returns; a second poll panics. */
  method SendThenPoll<T>(v: T, cx: nat) returns (sent: Result<Option<nat>, Panic>, first: Result<PollResult<T>, Panic>,
                                                 second: Result<PollResult<T>, Panic>)
    ensures sent == Ok(None) && first == Ok(PollReady(v)) && second == Err(SenderDropped)
  {
    var ch := new Channel<T>();
    sent := ch.Send(v);
    first := ch.Poll(cx);
    second := ch.Poll(cx);
  }

  /**
   * A receiver polled before the send waits, the send wakes the task that
   * polled it, and the next poll returns the value.
   */
  method PollSendPoll<T>(v: T, cx: nat) returns (first: Result<PollResult<T>, Panic>, sent: Result<Option<nat>, Panic>,
                                                 second: Result<PollResult<T>, Panic>)
    ensures first == Ok(PollPending) && sent == Ok(Some(cx)) && second == Ok(PollReady(v))
  {
    var ch := new Channel<T>();
    first := ch.Poll(cx);
    sent := ch.Send(v);
    second := ch.Poll(cx);
  }

  /** Sending twice panics on the second send. */
  method SendTwicePanics<T>(v: T, w: T) returns (second: Result<Option<nat>, Panic>)
    ensures second == Err(SendCalledTwice)
  {
    var ch := new Channel<T>();
    var first := ch.Send(v);
    second := ch.Send(w);
  }

  /**
   * With the poll as written, a receiver polled before the send leaves the
   * channel `Dropped`: the send then panics with "send called after drop"
   * and the value is never delivered.
   */
  method PollBeforeSendPanics<T>(v: T, cx: nat) returns (first: Result<PollResult<T>, Panic>, sent: Result<Option<nat>, Panic>)
    ensures first == Ok(PollPending) && sent == Err(SendAfterDrop)
  {
    var ch := new Channel<T>();
    first := ch.PollAsWritten(cx);
    sent := ch.Send(v);
  }
}
