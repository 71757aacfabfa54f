/** Node identity: the "host:port" key shared by the registry, the balancers and the channel table. */
module NodeKeys {
  import opened Bytes

  datatype NodeInfo = NodeInfo(name: string, host: string, port: u32)

  function Digit(d: nat): char
    requires d < 10
  {
    ('0' as int + d) as char
  }

  predicate IsDigit(c: char) {
    '0' <= c <= '9'
  }

  /** std::to_string of an unsigned number. */
  function Decimal(n: nat): (s: string)
    ensures s != []
    ensures forall i | 0 <= i < |s| :: IsDigit(s[i])
  {
    if n < 10 then [Digit(n)] else Decimal(n / 10) + [Digit(n % 10)]
  }

  /** The value of the leading digits of s. On a number above the range of int, atoi gives it modulo 2^32;
      only its low 16 bits are used here. */
  function LeadingNumber(s: string, sofar: nat): nat
    decreases |s|
  {
    if s == [] || !IsDigit(s[0]) then sofar
    else LeadingNumber(s[1..], 10 * sofar + (s[0] as int - '0' as int))
  }

  function Atoi(s: string): nat {
    LeadingNumber(s, 0)
  }

  function NodeKey(node: NodeInfo): string {
    node.host + ":" + Decimal(node.port)
  }

  /** rfind(':'): the position of the last colon, or -1 (npos) if there is none. */
  function LastColon(s: string): (at: int)
    ensures -1 <= at < |s|
  {
    if s == [] then -1
    else if s[|s| - 1] == ':' then |s| - 1
    else LastColon(s[..|s| - 1])
  }

  /** The address a channel is opened to: the text before the last colon, and the number after it
      narrowed to 16 bits. */
  function AddressOf(key: string): (string, u16) {
    var colon := LastColon(key);
    (if colon < 0 then key else key[..colon], Atoi(key[colon + 1..]) % 0x1_0000)
  }

  // ---- decimal numerals ----

  lemma {:induction false} ReadsOn(s: string, t: string, sofar: nat)
    requires forall i | 0 <= i < |s| :: IsDigit(s[i])
    ensures LeadingNumber(s + t, sofar) == LeadingNumber(t, LeadingNumber(s, sofar))
    decreases |s|
  {
    if s == [] {
      assert s + t == t;
    } else {
      assert (s + t)[1..] == s[1..] + t;
      ReadsOn(s[1..], t, 10 * sofar + (s[0] as int - '0' as int));
    }
  }

  /** atoi undoes to_string. */
  lemma {:induction false} DecimalReadsBack(n: nat)
    ensures Atoi(Decimal(n)) == n
    decreases n
  {
    if n < 10 {
      assert LeadingNumber([Digit(n)][1..], n) == n;
    } else {
      DecimalReadsBack(n / 10);
      ReadsOn(Decimal(n / 10), [Digit(n % 10)], 0);
      assert LeadingNumber([Digit(n % 10)][1..], n) == n;
    }
  }

  // ---- splitting keys ----

  lemma {:induction false} ColonBeforeDigits(front: string, digits: string)
    requires forall i | 0 <= i < |digits| :: IsDigit(digits[i])
    ensures LastColon(front + ":" + digits) == |front|
    decreases |digits|
  {
    var s := front + ":" + digits;
    if digits == [] {
      assert s[|s| - 1] == ':';
    } else {
      assert s[|s| - 1] == digits[|digits| - 1];
      assert s[..|s| - 1] == front + ":" + digits[..|digits| - 1];
      ColonBeforeDigits(front, digits[..|digits| - 1]);
    }
  }

  lemma SplitsAtLastColon(node: NodeInfo)
    ensures LastColon(NodeKey(node)) == |node.host|
    ensures NodeKey(node)[..|node.host|] == node.host
    ensures NodeKey(node)[|node.host| + 1..] == Decimal(node.port)
  {
    ColonBeforeDigits(node.host, Decimal(node.port));
  }

  /** Two nodes have one key only if they have one host and one port, even when hosts contain
      colons and digits. */
  lemma NodeKeyIsInjective(a: NodeInfo, b: NodeInfo)
    requires NodeKey(a) == NodeKey(b)
    ensures a.host == b.host && a.port == b.port
  {
    SplitsAtLastColon(a);
    SplitsAtLastColon(b);
    DecimalReadsBack(a.port);
    DecimalReadsBack(b.port);
  }

  /** Distinct keys lead to one address exactly if they name one host and their ports agree modulo 65536. */
  lemma SameAddressExactly(a: NodeInfo, b: NodeInfo)
    ensures AddressOf(NodeKey(a)) == AddressOf(NodeKey(b)) <==>
            a.host == b.host && a.port % 0x1_0000 == b.port % 0x1_0000
  {
    SplitsAtLastColon(a);
    SplitsAtLastColon(b);
    DecimalReadsBack(a.port);
    DecimalReadsBack(b.port);
  }

  lemma OneDigit(d: nat)
    requires d < 10
    ensures Decimal(d) == [Digit(d)]
  {
  }

  lemma AppendDigit(n: nat, d: nat)
    requires 0 < n && d < 10
    ensures Decimal(10 * n + d) == Decimal(n) + [Digit(d)]
  {
  }

  /** Ports 80 and 65616 of one host are two nodes to the balancer and one address to the network. */
  lemma TwoKeysOneAddress(name: string, host: string)
    ensures NodeKey(NodeInfo(name, host, 80)) == host + ":80"
    ensures NodeKey(NodeInfo(name, host, 65616)) == host + ":65616"
    ensures AddressOf(host + ":80") == AddressOf(host + ":65616") == (host, 80)
  {
    var a, b := NodeInfo(name, host, 80), NodeInfo(name, host, 65616);
    SameAddressExactly(a, b);
    AddressRecoveredExactly(a);
    AppendDigit(8, 0);
    AppendDigit(6, 5);
    AppendDigit(65, 6);
    AppendDigit(656, 1);
    AppendDigit(6561, 6);
    OneDigit(8);
    OneDigit(6);
    hide Decimal, AddressOf;
  }

  /** Opening a channel by key reaches the node's own host and port exactly when the port is a
      16-bit one; the registry accepts 32-bit ports. */
  lemma AddressRecoveredExactly(node: NodeInfo)
    ensures AddressOf(NodeKey(node)).0 == node.host
    ensures AddressOf(NodeKey(node)).1 == node.port <==> node.port < 0x1_0000
  {
    SplitsAtLastColon(node);
    DecimalReadsBack(node.port);
  }
}
