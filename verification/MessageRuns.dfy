/** Printing a message, sending it in chunks and parsing them. */
module MessageRuns {
  import opened Bytes
  import opened Options
  import opened StringBuffer
  import opened MessageFsm
  import opened MessageBody
  import opened Message
  import opened MessageParser
  import opened MessagePrinter
  import opened EnvelopeRoundTrip

  /** A printed message, cut into chunks of any sizes, comes back with its values, headers and body from a parser that
      is finished when all chunks have been parsed; the first chunk must not be empty. */
  method ParsePrinted(m: Message, body: Option<Text>, chunks: seq<Text>, size: nat) returns (parser: MessageParser)
    requires HaveValues(m.headers) && |m.values| <= UINT32_MAX && Printable(m)
    requires Flatten(chunks) == Printed(m, body) && StartsFull(chunks)
    ensures parser.Valid() && parser.buffer.Contents() == Printed(m, body)
    ensures parser.message == m
    ensures parser.body == Some(if body.Some? then body.value else [])
  {
    hide Printed, Printable, Flatten, FeedAll, StartsFull, BodyText, Read, Run;
    var buffer := new Buffer(size);
    parser := new MessageParser(buffer);
    PrintedBody(m, body, chunks);
    EnvelopeThenBody(m, body);
    parser.ReceiveAll(chunks);
    parser.Finish();
  }
}
