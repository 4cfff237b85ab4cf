/** The packet identifiers that append_message_id of mqtt_msg.c gives out, one after
    the other (CONFIG_MQTT_MSG_ID_INCREMENTAL). */
module MqttIdentifiers {

  /** The identifier after n: a counter of 16 bits that leaves out zero. */
  function NextId(n: nat): nat {
    n % 65535 + 1
  }

  /** The identifier k steps after n. */
  function IdAfter(n: nat, k: nat): nat {
    if k == 0 then n else NextId(IdAfter(n, k - 1))
  }

  lemma {:induction false} IdAfterIs(n: nat, k: nat)
    requires n < 65536 && k > 0
    ensures IdAfter(n, k) == (n + k - 1) % 65535 + 1
  {
    if k > 1 {
      IdAfterIs(n, k - 1);
      Wraps(n + k - 2);
    }
  }

  lemma Wraps(x: nat)
    ensures (x % 65535 + 1) % 65535 == (x + 1) % 65535
  {
  }

  /** Any 65535 identifiers given out one after the other differ. */
  lemma IdsDiffer(n: nat, i: nat, j: nat)
    requires n < 65536 && 0 < i < j < i + 65535
    ensures 0 < IdAfter(n, i) < 65536 && IdAfter(n, i) != IdAfter(n, j)
  {
    IdAfterIs(n, i);
    IdAfterIs(n, j);
  }
}
