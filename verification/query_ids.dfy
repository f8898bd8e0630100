/**
 Query identifiers (`QuerySession.nextqid` and `__on_query`): `Q<pid>-<n>|<mid>`,
 where `<pid>` is the process id, `<n>` a process-wide counter bumped before
 each use, and `<mid>` the request's `MESSAGE_ID` (the text `0` when it has
 none). Numbers are written in decimal without leading zeros, as Python's
 `str` of an `int` writes them.
 */
module QueryIds {
  import opened Options

  /** The decimal digit for `d`. */
  function Digit(d: nat): (c: char)
    requires d < 10
    ensures '0' <= c <= '9'
  {
    (d + 48) as char
  }

  /** The value of a decimal digit. */
  function DigitValue(c: char): (d: nat)
    requires '0' <= c <= '9'
    ensures d < 10
  {
    (c as int) - 48
  }

  predicate AllDigits(s: string) {
    forall i :: 0 <= i < |s| ==> '0' <= s[i] <= '9'
  }

  /** Python's `str(n)` for a natural number. */
  function NatToString(n: nat): (r: string)
    ensures |r| >= 1
    ensures AllDigits(r)
    decreases n
  {
    if n < 10 then [Digit(n)] else NatToString(n / 10) + [Digit(n % 10)]
  }

  /** Python's `int(s)` for a string of decimal digits (0 for the empty string). */
  function ParseNat(s: string): nat
    requires AllDigits(s)
    decreases |s|
  {
    if |s| == 0 then 0 else ParseNat(s[..|s| - 1]) * 10 + DigitValue(s[|s| - 1])
  }

  /** Reading back a written number gives the number. */
  lemma {:induction false} ParseNatToString(n: nat)
    ensures ParseNat(NatToString(n)) == n
    decreases n
  {
    var s := NatToString(n);
    if n >= 10 {
      assert s[..|s| - 1] == NatToString(n / 10);
      ParseNatToString(n / 10);
    }
  }

  lemma NatToStringInjective(a: nat, b: nat)
    requires NatToString(a) == NatToString(b)
    ensures a == b
  {
    ParseNatToString(a);
    ParseNatToString(b);
  }

  /** The process id and the process-wide query counter. */
  datatype Counter = Counter(pid: nat, qid: nat)

  /** The identifier minted at counter value `n` for a request whose message id text is `mid`. */
  function QueryIdText(pid: nat, n: nat, mid: string): string {
    "Q" + NatToString(pid) + "-" + NatToString(n) + "|" + mid
  }

  /** `message.get("MESSAGE_ID", "0")` */
  function MessageIdText(messageId: Option<string>): string {
    if messageId.Some? then messageId.value else "0"
  }

  datatype Minted = Minted(counter: Counter, id: string)

  /** `nextqid` followed by the `|<mid>` suffix: bump the counter, then write the id with the new value. */
  function Mint(c: Counter, messageId: Option<string>): (r: Minted)
    ensures r.counter.pid == c.pid && r.counter.qid == c.qid + 1
    ensures r.id == QueryIdText(c.pid, r.counter.qid, MessageIdText(messageId))
  {
    var c' := Counter(c.pid, c.qid + 1);
    Minted(c', QueryIdText(c'.pid, c'.qid, MessageIdText(messageId)))
  }

  /** Position of the first `c` in `s`. */
  function IndexOf(s: string, c: char): (i: nat)
    requires c in s
    ensures i < |s| && s[i] == c && c !in s[..i]
  {
    if s[0] == c then 0
    else
      var i := 1 + IndexOf(s[1..], c);
      assert s[..i] == [s[0]] + s[1..][..i - 1];
      i
  }

  /** The first separator of `a + [sep] + b` is the one after `a` when `a` holds none. */
  lemma {:induction false} FirstSeparator(a: string, b: string, sep: char)
    requires sep !in a
    ensures IndexOf(a + [sep] + b, sep) == |a|
    decreases |a|
  {
    if |a| > 0 {
      assert (a + [sep] + b)[1..] == a[1..] + [sep] + b;
      FirstSeparator(a[1..], b, sep);
    }
  }

  /** Splitting at the first occurrence of a separator is unambiguous. */
  lemma SplitUnique(a: string, b: string, a': string, b': string, sep: char)
    requires sep !in a && sep !in a'
    requires a + [sep] + b == a' + [sep] + b'
    ensures a == a' && b == b'
  {
    var s := a + [sep] + b;
    FirstSeparator(a, b, sep);
    FirstSeparator(a', b', sep);
    assert a == s[..|a|] == a';
    assert b == s[|a| + 1..] == b';
  }

  lemma DigitsHaveNo(s: string, c: char)
    requires AllDigits(s)
    requires !('0' <= c <= '9')
    ensures c !in s
  {
  }

  /**
   A query identifier determines the process id, the counter value and the
   message id it was minted from.
   */
  lemma QueryIdTextInjective(p: nat, n: nat, m: string, p': nat, n': nat, m': string)
    requires QueryIdText(p, n, m) == QueryIdText(p', n', m')
    ensures p == p' && n == n' && m == m'
  {
    var x, x' := NatToString(p), NatToString(p');
    var y, y' := NatToString(n), NatToString(n');
    DigitsHaveNo(x, '-');
    DigitsHaveNo(x', '-');
    DigitsHaveNo(y, '|');
    DigitsHaveNo(y', '|');
    assert QueryIdText(p, n, m) == ("Q" + x) + ['-'] + (y + ['|'] + m);
    assert QueryIdText(p', n', m') == ("Q" + x') + ['-'] + (y' + ['|'] + m');
    SplitUnique("Q" + x, y + ['|'] + m, "Q" + x', y' + ['|'] + m', '-');
    assert x == ("Q" + x)[1..] == ("Q" + x')[1..] == x';
    SplitUnique(y, m, y', m', '|');
    NatToStringInjective(p, p');
    NatToStringInjective(n, n');
  }

  /** Two identifiers minted by one process at different counter values differ, whatever their message ids. */
  lemma MintedIdsDiffer(c: Counter, n: nat, m: string, messageId: Option<string>)
    requires n <= c.qid
    ensures Mint(c, messageId).id != QueryIdText(c.pid, n, m)
  {
    if Mint(c, messageId).id == QueryIdText(c.pid, n, m) {
      QueryIdTextInjective(c.pid, c.qid + 1, MessageIdText(messageId), c.pid, n, m);
    }
  }
}
