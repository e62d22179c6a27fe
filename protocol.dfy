/** Types shared by the RPC client and the RPC server: the request and response
    records, the envelope properties that travel with every message, and the
    outcome of deserialising a message body. */
module Protocol {

  datatype Option<+T> = None | Some(value: T)

  /** A C# `int`. */
  newtype int32 = x: int | -0x8000_0000 <= x < 0x8000_0000

  /** The name of the well-known request queue, declared by the server and
      used as routing key by the client. */
  const QueueName: string := "rpc_queue"

  /** The default exchange, which routes a message to the queue named by its routing key. */
  const DefaultExchange: string := ""

  datatype Request = Request(amount: int32, currency: string, ecommerceId: int32, customerName: string)

  datatype Response = Response(id: int32)

  /** What `JsonConvert.DeserializeObject<T>` does with a message body: it returns
      an object, returns null (the body is the JSON text `null`), or throws
      (the body is not JSON for a `T`). */
  datatype Decoded<+T> = Value(value: T) | Null | Malformed

  /** One `BasicPublishAsync` call: exchange, routing key, the `mandatory` flag,
      the two envelope properties the protocol uses, and the body before
      serialisation. A property that is not set is `None`. */
  datatype Message<+T> = Message(
    exchange: string,
    routingKey: Option<string>,
    mandatory: bool,
    correlationId: Option<string>,
    replyTo: Option<string>,
    body: T)

  /** The serialise-then-deserialise round trip of a reply body: a response
      object comes back as that object and a null reply comes back as null.
      The JSON codec itself is not part of this model. */
  function Transmit(body: Option<Response>): (d: Decoded<Response>)
    ensures d.Malformed? == false
    ensures body.Some? <==> d.Value?
    ensures body.Some? ==> d.value == body.value
  {
    match body
    case Some(r) => Value(r)
    case None => Null
  }
}
