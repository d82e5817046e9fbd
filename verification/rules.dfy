/** Forwarding rules and the pieces of rule entry that are pure string logic:
    the menu answer to address family mapping and the composition of the
    persisted `host:port` target. */
module Rules {
  import opened Text

  /** One persisted forwarding rule. The store keeps every field as text and
      the supervisor passes them to the forwarder verbatim. */
  datatype Config = Config(listen: string, target: string, localType: string, remoteType: string)

  /** The menu answer that selects IPv4; any other answer selects IPv6. */
  const IPV4_ANSWER := "1"
  /** The menu answer that triggers IPv6 bracket normalisation of the host. */
  const IPV6_ANSWER := "2"

  /** The address-family tag recorded for an already stripped menu answer,
      used for both the local and the remote side. */
  function AddressType(choice: string): (t: string)
    ensures t == "TCP4" || t == "TCP6"
    ensures t == "TCP4" <==> choice == IPV4_ANSWER
  {
    if choice == IPV4_ANSWER then "TCP4" else "TCP6"
  }

  /** The tag for a raw answer line, which is stripped before it is compared. */
  function AddressTypeOfAnswer(raw: string): string {
    AddressType(Strip(raw))
  }

  /** White space typed around any answer does not change the family it
      selects. */
  lemma PaddedAnswerSameFamily(a: string, x: string, b: string)
    requires AllSpace(a) && AllSpace(b)
    requires x == [] || (!IsSpace(x[0]) && !IsSpace(x[|x| - 1]))
    ensures AddressTypeOfAnswer(a + x + b) == AddressType(x)
  {
    StripPadded(a, x, b);
  }

  /** In particular `1` with white space around it selects `TCP4`. */
  lemma PaddedAnswerSelectsIPv4(a: string, b: string)
    requires AllSpace(a) && AllSpace(b)
    ensures AddressTypeOfAnswer(a + "1" + b) == "TCP4"
  {
    PaddedAnswerSameFamily(a, "1", b);
  }

  predicate NoBrackets(s: string) {
    '[' !in s && ']' !in s
  }

  /** `ip.replace('[', '').replace(']', '')`. */
  function StripBrackets(ip: string): (r: string)
    ensures NoBrackets(r)
    ensures NoBrackets(ip) ==> r == ip
  {
    ReplaceCharAbsent(ReplaceChar(ip, '[', ""), ']', "", '[');
    ReplaceChar(ReplaceChar(ip, '[', ""), ']', "")
  }

  lemma StripBracketsLength(ip: string)
    ensures |StripBrackets(ip)| == |ip| - multiset(ip)['['] - multiset(ip)[']']
  {
    var once := ReplaceChar(ip, '[', "");
    ReplaceCharByNothingLength(ip, '[');
    ReplaceCharByNothingLength(once, ']');
    MultisetOfReplaceOther(ip, '[', "", ']');
  }

  /** Replacing `c` does not change how often another character `x` that is
      absent from the replacement occurs. */
  lemma {:induction false} MultisetOfReplaceOther(s: string, c: char, r: string, x: char)
    requires x != c && x !in r
    ensures multiset(ReplaceChar(s, c, r))[x] == multiset(s)[x]
  {
    if s != [] {
      assert s == [s[0]] + s[1..];
      MultisetOfReplaceOther(s[1..], c, r, x);
      assert ReplaceChar(s, c, r) == (if s[0] == c then r else [s[0]]) + ReplaceChar(s[1..], c, r);
      if s[0] == c {
        assert multiset(r)[x] == 0;
      }
    }
  }

  /** The two chained replacements act as one filter that drops each
      bracket and keeps every other character, in order. */
  lemma {:induction false} StripBracketsCons(h: char, rest: string)
    ensures StripBrackets([h] + rest) == (if h == '[' || h == ']' then [] else [h]) + StripBrackets(rest)
  {
    var once := ReplaceChar([h], '[', "");
    ReplaceCharAppend([h], rest, '[', "");
    ReplaceCharAppend(once, ReplaceChar(rest, '[', ""), ']', "");
    assert [h][1..] == [];
    assert once == (if h == '[' then [] else [h]);
    if h != '[' {
      assert ReplaceChar([h], ']', "") == (if h == ']' then [] else [h]);
    }
  }

  lemma StripBracketsAppend(a: string, b: string)
    ensures StripBrackets(a + b) == StripBrackets(a) + StripBrackets(b)
  {
    ReplaceCharAppend(a, b, '[', "");
    ReplaceCharAppend(ReplaceChar(a, '[', ""), ReplaceChar(b, '[', ""), ']', "");
  }

  /** The canonical bracketed form of an IPv6 host. */
  function BracketHost(ip: string): string {
    "[" + StripBrackets(ip) + "]"
  }

  /** The persisted target: the host, bracketed when the remote answer is
      the IPv6 one, a colon, and the port. */
  function ComposeTarget(remoteChoice: string, ip: string, port: string): string {
    (if remoteChoice == IPV6_ANSWER then BracketHost(ip) else ip) + ":" + port
  }

  /** Stripping the brackets from a bracket-free host followed by a closing
      bracket leaves the host. */
  lemma StripClosingBracket(core: string)
    requires NoBrackets(core)
    ensures StripBrackets(core + "]") == core
  {
    StripBracketsAppend(core, "]");
    assert ReplaceChar("]", '[', "") == "]";
    assert ReplaceChar("]", ']', "") == [];
  }

  /** Bracketing an already bracketed host changes nothing. */
  lemma {:induction false} BracketHostIdempotent(ip: string)
    ensures BracketHost(BracketHost(ip)) == BracketHost(ip)
  {
    var core := StripBrackets(ip);
    var tail := core + "]";
    assert BracketHost(ip) == "[" + tail;
    StripBracketsAppend("[", tail);
    assert StripBrackets("[") == [] by {
      assert ReplaceChar("[", '[', "") == [];
    }
    StripClosingBracket(core);
    assert StripBrackets(BracketHost(ip)) == core;
  }

  /** A host typed with or without its brackets composes to the same target. */
  lemma ComposeTargetIgnoresTypedBrackets(ip: string, port: string)
    requires NoBrackets(ip)
    ensures ComposeTarget(IPV6_ANSWER, "[" + ip + "]", port) == ComposeTarget(IPV6_ANSWER, ip, port)
    ensures ComposeTarget(IPV6_ANSWER, ip, port) == "[" + ip + "]:" + port
  {
    BracketHostIdempotent(ip);
  }

  /** As written, the family and the bracketing use different tests: an
      answer such as "3" records `TCP6` yet leaves an IPv6 host unbracketed,
      so the colon before the port cannot be told from the address's own. */
  lemma UnbracketedIPv6Target()
    ensures AddressType("3") == "TCP6"
    ensures ComposeTarget("3", "2001:db8::1", "8080") == "2001:db8::1:8080"
    ensures '[' !in ComposeTarget("3", "2001:db8::1", "8080")
  {
  }

  /** The target composed from the family actually recorded: the host is
      bracketed exactly when the remote side is `TCP6`. */
  function ComposeTargetForType(remoteChoice: string, ip: string, port: string): (r: string)
    ensures AddressType(remoteChoice) == "TCP6" ==> r == "[" + StripBrackets(ip) + "]:" + port
    ensures AddressType(remoteChoice) == "TCP4" ==> r == ip + ":" + port
    ensures remoteChoice == IPV6_ANSWER ==> r == ComposeTarget(remoteChoice, ip, port)
  {
    (if AddressType(remoteChoice) == "TCP6" then BracketHost(ip) else ip) + ":" + port
  }
}
