/** The RabbitMQ component: an object whose methods change its connection under a mutex. The ghost
    fields keep what the broker has seen. */
module RabbitMQ {
  import opened Wrappers
  import opened RabbitModel

  class RabbitMQ {
    var connection: Option<nat>
    var channel: Option<nat>
    var connectionCount: nat
    var declaredExchanges: set<string>
    var closed: bool
    var dialed: nat
    ghost var open: set<nat>
    ghost var exchanges: map<nat, set<string>>
    ghost var made: seq<nat>

    ghost function Sys(): Sys
      reads this
    {
      RabbitModel.Sys(connection, channel, connectionCount, declaredExchanges, closed, dialed, open, exchanges, made)
    }

    /** No connection, no channel, and nothing remembered as declared on it. */
    predicate Disconnected()
      reads this
    {
      connection == None && channel == None && declaredExchanges == {}
    }

    constructor ()
      ensures Sys() == INITIAL
      ensures Disconnected() && connectionCount == 0 && !closed
    {
      connection, channel, connectionCount, declaredExchanges, closed := None, None, 0, {}, false;
      dialed, open, exchanges, made := 0, {}, map[], [];
    }

    method DoReset(channelCloseFails: bool) returns (ok: bool)
      modifies this
      ensures Sys() == Reset(old(Sys()))
      ensures Disconnected() && connectionCount == old(connectionCount) && closed == old(closed)
      ensures open == old(open) - (if old(connection).Some? then {old(connection).value} else {})
      ensures ok <==> !(old(channel).Some? && channelCloseFails)
    {
      ok := true;
      if |declaredExchanges| > 0 {
        declaredExchanges := {};
      }
      if channel.Some? {
        if channelCloseFails {
          ok := false;
        }
        channel := None;
      }
      if connection.Some? {
        open := open - {connection.value};
        connection := None;
      }
    }

    method DoReconnect(reference: nat, env: DialEnv) returns (r: ReconnectOutcome)
      modifies this
      ensures (Sys(), r) == Reconnect(old(Sys()), reference, env)
      ensures r == if old(closed) then Stopped
                   else if reference != old(connectionCount) then Stale
                   else if old(channel).Some? && env.channelCloseFails then ResetFailed
                   else if env.tlsFails then TLSFailed
                   else if env.dialFails then DialFailed
                   else if env.publisherConfirm && env.confirmFails then ConfirmFailed
                   else Connected
      ensures r == Stopped || r == Stale ==> Sys() == old(Sys())
      ensures r != Stopped && r != Stale && old(connection).Some? && old(connection).value < old(dialed) ==>
                old(connection).value !in open
      ensures r in {ResetFailed, TLSFailed, DialFailed, ConfirmFailed} ==>
                Disconnected() && connectionCount == old(connectionCount)
      ensures r == Connected ==>
                && connection == channel == Some(old(dialed)) && dialed == old(dialed) + 1 && old(dialed) in open
                && declaredExchanges == {} && connectionCount == old(connectionCount) + 1
      ensures closed == old(closed)
    {
      if closed {
        return Stopped;
      }
      if reference != connectionCount {
        return Stale;
      }
      var ok := DoReset(env.channelCloseFails);
      if !ok {
        return ResetFailed;
      }
      if env.tlsFails {
        return TLSFailed;
      }
      if env.dialFails {
        connection, channel := None, None;
        ok := DoReset(env.channelCloseFails);
        return DialFailed;
      }
      connection, channel, dialed := Some(dialed), Some(dialed), dialed + 1;
      open, exchanges := open + {dialed - 1}, exchanges[dialed - 1 := {}];
      if env.publisherConfirm && env.confirmFails {
        ok := DoReset(env.channelCloseFails);
        return ConfirmFailed;
      }
      connectionCount := connectionCount + 1;
      made := made + [dialed - 1];
      return Connected;
    }

    method EnsureExchangeDeclared(name: string, fails: bool) returns (ok: bool)
      requires channel.Some?
      modifies this
      ensures (Sys(), ok) == Declare(old(Sys()), [name], [fails])
      ensures ok <==> name in old(declaredExchanges) || !fails
      ensures declaredExchanges == if ok then old(declaredExchanges) + {name} else old(declaredExchanges)
      ensures ok && name !in old(declaredExchanges) ==>
                old(channel).value in exchanges && name in exchanges[old(channel).value]
      ensures channel == old(channel) && connection == old(connection) && connectionCount == old(connectionCount)
      ensures open == old(open) && closed == old(closed)
    {
      assert [name][1..] == [] && [fails][1..] == [];
      if name !in declaredExchanges {
        if fails {
          return false;
        }
        exchanges := exchanges[channel.value :=
            (if channel.value in exchanges then exchanges[channel.value] else {}) + {name}];
        declaredExchanges := declaredExchanges + {name};
      }
      return true;
    }

    method PublishSync(topic: string, declareFails: bool, publishFails: bool) returns (seen: Seen, ok: bool)
      modifies this
      ensures (Sys(), seen, ok) == Use(old(Sys()), [topic], [declareFails], publishFails)
      ensures seen == Seen(old(channel), old(connectionCount))
      ensures ok <==> old(channel).Some? && (topic in old(declaredExchanges) || !declareFails) && !publishFails
      ensures declaredExchanges == if old(channel).Some? && (topic in old(declaredExchanges) || !declareFails)
                                   then old(declaredExchanges) + {topic} else old(declaredExchanges)
      ensures channel == old(channel) && connectionCount == old(connectionCount)
    {
      seen := Seen(channel, connectionCount);
      if channel.None? {
        return seen, false;
      }
      ok := EnsureExchangeDeclared(topic, declareFails);
      ok := ok && !publishFails;
    }

    /** With a dead letter exchange when `deadLetter` is given. */
    method EnsureSubscription(topic: string, deadLetter: Option<string>, fails: bool, deadLetterFails: bool,
                              laterFails: bool)
      returns (seen: Seen, ok: bool)
      modifies this
      ensures (Sys(), seen, ok) ==
              if deadLetter.None? then Use(old(Sys()), [topic], [fails], laterFails)
              else Use(old(Sys()), [topic, deadLetter.value], [fails, deadLetterFails], laterFails)
      ensures seen == Seen(old(channel), old(connectionCount))
      ensures ok <==>
              && old(channel).Some? && !laterFails
              && (topic in old(declaredExchanges) || !fails)
              && (deadLetter.Some? && deadLetter.value != topic ==>
                    deadLetter.value in old(declaredExchanges) || !deadLetterFails)
      ensures ok ==> topic in declaredExchanges && (deadLetter.Some? ==> deadLetter.value in declaredExchanges)
      ensures channel == old(channel) && connectionCount == old(connectionCount)
    {
      seen := Seen(channel, connectionCount);
      if channel.None? {
        return seen, false;
      }
      ghost var s0 := Sys();
      ok := EnsureExchangeDeclared(topic, fails);
      if deadLetter.Some? {
        DeclareTwo(s0, topic, fails, deadLetter.value, deadLetterFails);
      }
      if !ok {
        return;
      }
      if deadLetter.Some? {
        ok := EnsureExchangeDeclared(deadLetter.value, deadLetterFails);
      }
      ok := ok && !laterFails;
    }

    method Close(channelCloseFails: bool) returns (ok: bool)
      modifies this
      ensures Sys() == Shut(old(Sys()))
      ensures closed && Disconnected() && connectionCount == old(connectionCount)
      ensures open == old(open) - (if old(connection).Some? then {old(connection).value} else {})
      ensures ok <==> !(old(channel).Some? && channelCloseFails)
    {
      if !closed {
        closed := true;
      }
      ok := DoReset(channelCloseFails);
    }
  }

  lemma DeclareTwo(s: Sys, a: string, aFails: bool, b: string, bFails: bool)
    requires s.channel.Some?
    ensures Declare(s, [a], [aFails]).0.channel.Some?
    ensures Declare(s, [a, b], [aFails, bFails]) ==
            var (s', ok) := Declare(s, [a], [aFails]);
            if ok then Declare(s', [b], [bFails]) else (s', false)
  {
    assert [a, b][1..] == [b] && [aFails, bFails][1..] == [bFails];
    assert [a][1..] == [] && [aFails][1..] == [];
  }
}
