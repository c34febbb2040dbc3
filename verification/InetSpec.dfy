/** IPv4 and IPv6 addresses as text: printers, parsers over characters, and their round trips. */
module InetSpec {
  import opened Common

  // ----- numbers -----

  function DecDigit(d: nat): (c: char)
    requires d < 10
  {
    ('0' as nat + d) as char
  }

  function HexDigit(d: nat): (c: char)
    requires d < 16
  {
    if d < 10 then DecDigit(d) else ('a' as nat + (d - 10)) as char
  }

  /** %u */
  function Dec(n: nat): (s: string)
    ensures |s| >= 1
  {
    if n < 10 then [DecDigit(n)] else Dec(n / 10) + [DecDigit(n % 10)]
  }

  /** %x */
  function Hex(n: nat): (s: string)
    ensures |s| >= 1
  {
    if n < 16 then [HexDigit(n)] else Hex(n / 16) + [HexDigit(n % 16)]
  }

  function DecValue(c: char): (d: Option<nat>)
    ensures d.Some? ==> d.value < 10 && DecDigit(d.value) == c
    ensures d.None? ==> forall n: nat :: n < 10 ==> DecDigit(n) != c
  {
    if '0' <= c <= '9' then Some(c as nat - '0' as nat) else None
  }

  function HexValue(c: char): (d: Option<nat>)
    ensures d.Some? ==> d.value < 16
  {
    if '0' <= c <= '9' then Some(c as nat - '0' as nat)
    else if 'a' <= c <= 'f' then Some(c as nat - 'a' as nat + 10)
    else if 'A' <= c <= 'F' then Some(c as nat - 'A' as nat + 10)
    else None
  }

  // ----- IPv4 -----

  /** inet_ntop4. */
  function Text4(a: seq<Byte>): (s: string)
    requires |a| == 4
  {
    Dec(a[0]) + "." + (Dec(a[1]) + "." + (Dec(a[2]) + "." + Dec(a[3])))
  }

  /** inet_pton4 with `done` octets complete; `saw` says that the current one has a digit. */
  function Parse4(s: string, done: seq<Byte>, cur: Byte, saw: bool): (r: Option<seq<Byte>>)
    requires |done| <= 3
    ensures r.Some? ==> |r.value| == 4
    decreases |s|
  {
    if s == [] then
      if |done| == 3 && saw then Some(done + [cur]) else None
    else if DecValue(s[0]).Some? then
      var sum := cur * 10 + DecValue(s[0]).value;
      if saw && cur == 0 then None
      else if sum > 255 then None
      else Parse4(s[1..], done, sum, true)
    else if s[0] == '.' && saw then
      if |done| == 3 then None else Parse4(s[1..], done + [cur], 0, false)
    else None
  }

  function Pton4(s: string): (r: Option<seq<Byte>>)
    ensures r.Some? ==> |r.value| == 4
  {
    Parse4(s, [], 0, false)
  }

  /** What has been read to reach a parser state. */
  function Read4(done: seq<Byte>, cur: Byte, saw: bool): (s: string)
  {
    if done == [] then (if saw then Dec(cur) else "") else Dec(done[0]) + "." + Read4(done[1..], cur, saw)
  }

  lemma {:induction false} Read4Digit(done: seq<Byte>, cur: Byte, saw: bool, d: nat, next: Byte)
    requires d < 10 && next == cur * 10 + d && (saw ==> cur != 0) && (!saw ==> cur == 0)
    ensures Read4(done, next, true) == Read4(done, cur, saw) + [DecDigit(d)]
    decreases |done|
  {
    if done == [] {
      if saw { assert Dec(next) == Dec(cur) + [DecDigit(d)]; }
    } else {
      Read4Digit(done[1..], cur, saw, d, next);
    }
  }

  lemma {:induction false} Read4Dot(done: seq<Byte>, cur: Byte)
    ensures Read4(done + [cur], 0, false) == Read4(done, cur, true) + "."
    decreases |done|
  {
    if done == [] {
      assert (done + [cur])[1..] == [];
      assert Dec(cur) + "." + "" == Dec(cur) + ".";
    } else {
      assert (done + [cur])[1..] == done[1..] + [cur];
      Read4Dot(done[1..], cur);
    }
  }

  lemma {:induction false} Read4All(a: seq<Byte>)
    requires |a| == 4
    ensures Read4(a[..3], a[3], true) == Text4(a)
  {
    var b := a[..3];
    assert b[1..][1..][1..] == [];
    assert Read4([], a[3], true) == Dec(a[3]);
    assert Read4(b[1..][1..], a[3], true) == Dec(a[2]) + "." + Dec(a[3]);
    assert Read4(b[1..], a[3], true) == Dec(a[1]) + "." + (Dec(a[2]) + "." + Dec(a[3]));
  }

  lemma {:induction false} Shift(a: string, s: string)
    requires s != []
    ensures a + s == a + [s[0]] + s[1..]
  {
  }

  /** Whatever the parser accepts is the printed form of what it returns. */
  lemma {:induction false} Parse4Sound(s: string, done: seq<Byte>, cur: Byte, saw: bool)
    requires |done| <= 3 && (!saw ==> cur == 0) && Parse4(s, done, cur, saw).Some?
    ensures Read4(done, cur, saw) + s == Text4(Parse4(s, done, cur, saw).value)
    decreases |s|
  {
    if s == [] {
      Read4All(done + [cur]);
      assert (done + [cur])[..3] == done;
      assert Read4(done, cur, saw) + s == Read4(done, cur, saw);
    } else if DecValue(s[0]).Some? {
      var d := DecValue(s[0]).value;
      Read4Digit(done, cur, saw, d, cur * 10 + d);
      Parse4Sound(s[1..], done, cur * 10 + d, true);
      Shift(Read4(done, cur, saw), s);
    } else {
      Read4Dot(done, cur);
      Parse4Sound(s[1..], done + [cur], 0, false);
      Shift(Read4(done, cur, saw), s);
    }
  }

  /** The parser reads a printed octet. */
  lemma {:induction false} Parse4Octet(n: nat, done: seq<Byte>, x: string)
    requires n < 256 && |done| <= 3
    ensures Parse4(Dec(n) + x, done, 0, false) == Parse4(x, done, n, true)
    decreases n
  {
    if n < 10 {
      assert (Dec(n) + x)[1..] == x;
    } else {
      var c := DecDigit(n % 10);
      assert Dec(n) + x == Dec(n / 10) + ([c] + x);
      Parse4Octet(n / 10, done, [c] + x);
      assert ([c] + x)[1..] == x;
      assert DecValue(c) == Some(n % 10);
    }
  }

  lemma {:induction false} Parse4Dotted(n: nat, done: seq<Byte>, x: string)
    requires n < 256 && |done| <= 2
    ensures Parse4(Dec(n) + "." + x, done, 0, false) == Parse4(x, done + [n], 0, false)
  {
    assert Dec(n) + "." + x == Dec(n) + ("." + x);
    Parse4Octet(n, done, "." + x);
    assert ("." + x)[1..] == x;
  }

  lemma {:induction false} Parse4Complete(a: seq<Byte>)
    requires |a| == 4
    ensures Pton4(Text4(a)) == Some(a)
  {
    Parse4Dotted(a[0], [], Dec(a[1]) + "." + (Dec(a[2]) + "." + Dec(a[3])));
    Parse4Dotted(a[1], [a[0]], Dec(a[2]) + "." + Dec(a[3]));
    Parse4Dotted(a[2], [a[0], a[1]], Dec(a[3]));
    assert [] + [a[0]] == [a[0]] && [a[0]] + [a[1]] == [a[0], a[1]] && [a[0], a[1]] + [a[2]] == [a[0], a[1], a[2]];
    assert Dec(a[3]) + "" == Dec(a[3]);
    Parse4Octet(a[3], [a[0], a[1], a[2]], "");
    assert [a[0], a[1], a[2]] + [a[3]] == a;
  }

  /** The accepted texts are exactly the printed addresses: four decimals from 0 to 255 without
      leading zeros, separated by dots, each read as the address it prints. */
  lemma {:induction false} Pton4Exact(s: string, a: seq<Byte>)
    requires |a| == 4
    ensures Pton4(s) == Some(a) <==> s == Text4(a)
  {
    Parse4Complete(a);
    if Pton4(s).Some? {
      Parse4Sound(s, [], 0, false);
      assert "" + s == s;
    }
  }
}
