/** The main loop of the card: receive a command frame, process it, and
    either send the response or log the command as an error. */
module Firmware {
  import opened Octets
  import opened Checksum
  import opened Application
  import opened Handlers
  import opened DataLink

  /** What one pass of `loop` leaves: the card's memory, the command and
      response buffers, what went out on the wire, and the outcome of
      `receive_command`. */
  datatype Pass = Pass(state: CardState, command: seq<byte>, response: seq<byte>, tx: seq<byte>, reception: Reception)

  /** One pass of `loop` over the input stream: nothing more happens when
      `receive_command` fails; a command `process` does not answer goes to
      the error log; an answered one is transmitted. */
  function LoopPass(s: CardState, input: seq<byte>, command: seq<byte>, response: seq<byte>): (p: Pass)
    requires s.Valid() && |command| == COMMAND_SIZE && |response| == RESPONSE_SIZE
    ensures p.state.Valid() && |p.command| == COMMAND_SIZE && |p.response| == RESPONSE_SIZE
    ensures !p.reception.Received? ==> p.state == s && p.response == response && p.tx == []
  {
    var received := Receive(input, command);
    if !received.0.Received? then Pass(s, received.1, response, [], received.0)
    else
      var o := Process(s, received.1, response);
      if !o.answered then Pass(SaveError(o.state, received.1), received.1, o.response, [], received.0)
      else Pass(o.state, received.1, o.response, Transmission(o.response[..o.response[0]]), received.0)
  }

  /** The link buffers and the card's arrays are distinct objects. */
  ghost predicate Separate(link: Transceiver, card: Card)
    reads link, card
  {
    var cardArrays := {card.idm, card.pmm, card.serviceCode, card.systemCode, card.response};
    link.rxBuf !in cardArrays && link.command !in cardArrays && link.rxBuf != link.command
  }

  /** `loop`. */
  method Loop(link: Transceiver, card: Card, input: seq<byte>) returns (reception: Reception, tx: seq<byte>)
    requires link.Valid() && card.Valid() && Separate(link, card)
    modifies link.rxBuf, link.command, card, card.idm, card.pmm, card.serviceCode, card.systemCode, card.response
    ensures card.Valid()
    ensures Pass(card.State(), link.command[..], card.response[..], tx, reception) ==
            LoopPass(old(card.State()), input, old(link.command[..]), old(card.response[..]))
  {
    reception := link.ReceiveCommand(input);
    if !reception.Received? {
      return reception, [];
    }
    var command := link.command[..];
    var answered := card.Process(command);
    if !answered {
      card.SaveError(command);
      return reception, [];
    }
    tx := SendResponse(Some(card.response[..]));
  }

  // ---------------------------------------------------------------------------
  // Properties

  /** A frame as the reader sends it (the same coding as `send_response`)
      reaches `process` intact: the pass processes the command buffer that
      starts with the frame's body and its CRC. */
  lemma SentCommandIsProcessed(s: CardState, body: seq<byte>, rest: seq<byte>, command: seq<byte>, response: seq<byte>)
    requires s.Valid() && |command| == COMMAND_SIZE && |response| == RESPONSE_SIZE
    requires |body| <= 0xFF && (|body| == 0 || body[0] as int == |body|)
    ensures var p := LoopPass(s, Transmission(body) + rest, command, response);
            var cmd := Overwrite(command, 0, body + Trailer(body));
            p.reception.Received? && p.command == cmd && p.command[..|body|] == body &&
            p.response == Process(s, cmd, response).response
  {
    TransmissionIsReceived(body, rest, command);
    OverwriteFront(command, body, Trailer(body));
    PassOfReceived(s, Transmission(body) + rest, command, response);
  }

  lemma OverwriteFront(buf: seq<byte>, front: seq<byte>, back: seq<byte>)
    requires |front| + |back| <= |buf|
    ensures Overwrite(buf, 0, front + back)[..|front|] == front
  {
    var r := Overwrite(buf, 0, front + back);
    assert r[..|front| + |back|] == front + back;
    assert r[..|front|] == (front + back)[..|front|];
  }

  /** A pass over a received command is `process` on it, followed by
      `save_error` when it is not answered. */
  lemma PassOfReceived(s: CardState, input: seq<byte>, command: seq<byte>, response: seq<byte>)
    requires s.Valid() && |command| == COMMAND_SIZE && |response| == RESPONSE_SIZE
    requires Receive(input, command).0.Received?
    ensures var p := LoopPass(s, input, command, response);
            var o := Process(s, Receive(input, command).1, response);
            p.command == Receive(input, command).1 && p.response == o.response &&
            p.state == (if o.answered then o.state else SaveError(o.state, p.command))
  {
  }

  /** A pass transmits exactly when it received a command that `process`
      answers, and what it transmits is the transmission of the first
      `response[0]` bytes of that answer. */
  lemma PassTransmitsResponse(s: CardState, input: seq<byte>, command: seq<byte>, response: seq<byte>)
    requires s.Valid() && |command| == COMMAND_SIZE && |response| == RESPONSE_SIZE
    ensures var p := LoopPass(s, input, command, response);
            (p.tx != [] ==>
               p.reception.Received? && Process(s, p.command, response).answered &&
               p.tx == Transmission(p.response[..p.response[0]])) &&
            (p.reception.Received? && Process(s, p.command, response).answered ==>
               p.tx != [] && p.tx == Transmission(p.response[..p.response[0]]))
  {
  }

  /** The transmission of a response buffer is a frame a receiver of the
      same coding accepts, carrying the first `response[0]` bytes. */
  lemma TransmittedResponseIsReceived(response: seq<byte>, rest: seq<byte>, other: seq<byte>)
    requires |response| == RESPONSE_SIZE && |other| == COMMAND_SIZE
    ensures var body := response[..response[0]];
            Receive(Transmission(body) + rest, other) ==
              (Received(|Transmission(body)| - 1), Overwrite(other, 0, body + Trailer(body)))
  {
    var body := response[..response[0]];
    assert |body| == 0 || body[0] == response[0];
    TransmissionIsReceived(body, rest, other);
  }

  /** A command the card does not answer is logged: the error log starts
      with the command, up to the log's size. */
  lemma UnansweredCommandIsLogged(s: CardState, input: seq<byte>, command: seq<byte>, response: seq<byte>)
    requires s.Valid() && |command| == COMMAND_SIZE && |response| == RESPONSE_SIZE
    ensures var p := LoopPass(s, input, command, response);
            p.reception.Received? && p.tx == [] ==>
              p.state.eeprom.lastError[..ErrorLength(p.command)] == p.command[..ErrorLength(p.command)]
  {
  }
}
