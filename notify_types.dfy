/** Values exchanged by the notification relay: the stored event, the inbound
    request and the cooldown configuration. */
module NotifyTypes {

  datatype Option<+T> = None | Some(value: T)

  /** One row of the `notifies` table. Times are seconds as exact reals. */
  datatype Notify = Notify(id: int, typ: string, time: real, message: string)

  /** The decoded request body. */
  datatype NotifyRequest = NotifyRequest(typ: string, message: string, token: string)

  /** A cooldown rule: events of `typ` are not repeated within `timeoutSecond` seconds. */
  datatype DurationTimeout = DurationTimeout(typ: string, timeoutSecond: real)

  /** The part of the configuration the handler consults. */
  datatype Config = Config(tokens: seq<string>, durationTimeout: seq<DurationTimeout>)

  /** What the strict JSON decoder made of the request body. */
  datatype Decoded = Decoded(request: NotifyRequest) | DecodeError
}
