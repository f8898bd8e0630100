/**
 The filter the change detector runs before and after a write to find every
 result row the written record can touch (`QueryData.__rowsByTable`). For
 each alias of the written table there are two parenthesised conjunctions,
 "the alias's key fields equal the record's" and "the alias's key fields are
 all NULL" (the latter covers an outer-join leg that is currently unmatched);
 all of them are joined with `or`. Each key field of each alias contributes
 one `?` placeholder and one argument, the record's value for that field or
 0 when the record lacks it.
 */
module WhereFilter {
  import opened Rows
  import opened Arith

  datatype Conjunction =
    | KeysEqual(alias: string, keyfields: seq<string>)
    | KeysNull(alias: string, keyfields: seq<string>)

  /** The where-clause as a list of disjuncts, with the positional arguments for its placeholders. */
  datatype Filter = Filter(disjuncts: seq<Conjunction>, args: seq<Scalar>)

  /** `record.get(keyfield, 0)` */
  function KeyArg(record: map<string, Scalar>, keyfield: string): Scalar {
    if keyfield in record then record[keyfield] else Int(0)
  }

  /** One argument per key field, in key-field order. */
  function KeyArgs(record: map<string, Scalar>, keyfields: seq<string>): (r: seq<Scalar>)
    ensures |r| == |keyfields|
    ensures forall j :: 0 <= j < |keyfields| ==> r[j] == KeyArg(record, keyfields[j])
  {
    if |keyfields| == 0 then [] else [KeyArg(record, keyfields[0])] + KeyArgs(record, keyfields[1..])
  }

  /** `s` written out `n` times. */
  function Repeat<T>(s: seq<T>, n: nat): seq<T> {
    if n == 0 then [] else Repeat(s, n - 1) + s
  }

  lemma {:induction false} RepeatLength<T>(s: seq<T>, n: nat)
    ensures |Repeat(s, n)| == n * |s|
  {
    if n > 0 {
      RepeatLength(s, n - 1);
    }
  }

  /** The loop over the written table's aliases: two disjuncts and one block of arguments per alias. */
  function BuildFilter(aliases: seq<string>, keyfields: seq<string>, record: map<string, Scalar>): (f: Filter)
    ensures |f.disjuncts| == 2 * |aliases|
    ensures forall i :: 0 <= i < |aliases| ==>
      f.disjuncts[2 * i] == KeysEqual(aliases[i], keyfields) &&
      f.disjuncts[2 * i + 1] == KeysNull(aliases[i], keyfields)
    ensures f.args == Repeat(KeyArgs(record, keyfields), |aliases|)
    decreases |aliases|
  {
    if |aliases| == 0 then Filter([], [])
    else
      var n := |aliases| - 1;
      var f := BuildFilter(aliases[..n], keyfields, record);
      Filter(f.disjuncts + [KeysEqual(aliases[n], keyfields), KeysNull(aliases[n], keyfields)],
             f.args + KeyArgs(record, keyfields))
  }

  /** There are |aliases| * |keyfields| arguments in all. */
  lemma ArgCount(aliases: seq<string>, keyfields: seq<string>, record: map<string, Scalar>)
    ensures |BuildFilter(aliases, keyfields, record).args| == |aliases| * |keyfields|
  {
    RepeatLength(KeyArgs(record, keyfields), |aliases|);
  }

  /** Python's `sep.join(parts)`. */
  function Join(sep: string, parts: seq<string>): string
    decreases |parts|
  {
    if |parts| == 0 then ""
    else if |parts| == 1 then parts[0]
    else parts[0] + sep + Join(sep, parts[1..])
  }

  function Term(c: Conjunction, keyfield: string): string {
    match c
    case KeysEqual(alias, _) => alias + "." + keyfield + " = ?"
    case KeysNull(alias, _) => alias + "." + keyfield + " is NULL"
  }

  function Terms(c: Conjunction, keyfields: seq<string>): (r: seq<string>)
    ensures |r| == |keyfields|
  {
    if |keyfields| == 0 then [] else [Term(c, keyfields[0])] + Terms(c, keyfields[1..])
  }

  /** `( t1 and t2 and ... )` */
  function RenderConjunction(c: Conjunction): string {
    "( " + Join(" and ", Terms(c, c.keyfields)) + " )"
  }

  function RenderAll(ds: seq<Conjunction>): (r: seq<string>)
    ensures |r| == |ds|
  {
    if |ds| == 0 then [] else [RenderConjunction(ds[0])] + RenderAll(ds[1..])
  }

  /** The where-string handed to the query executor. */
  function Render(f: Filter): string {
    Join(" or ", RenderAll(f.disjuncts))
  }

  /** Number of `?` placeholders in a string. */
  function Placeholders(s: string): nat {
    if |s| == 0 then 0 else (if s[0] == '?' then 1 else 0) + Placeholders(s[1..])
  }

  lemma {:induction false} PlaceholdersAppend(a: string, b: string)
    ensures Placeholders(a + b) == Placeholders(a) + Placeholders(b)
    decreases |a|
  {
    if |a| == 0 {
      assert a + b == b;
    } else {
      assert (a + b)[1..] == a[1..] + b;
      PlaceholdersAppend(a[1..], b);
    }
  }

  function SumPlaceholders(parts: seq<string>): nat {
    if |parts| == 0 then 0 else Placeholders(parts[0]) + SumPlaceholders(parts[1..])
  }

  /** Joining with a separator that holds no `?` adds no placeholder. */
  lemma {:induction false} JoinPlaceholders(sep: string, parts: seq<string>)
    requires Placeholders(sep) == 0
    ensures Placeholders(Join(sep, parts)) == SumPlaceholders(parts)
    decreases |parts|
  {
    if |parts| == 1 {
      assert SumPlaceholders(parts[1..]) == 0;
    } else if |parts| > 1 {
      JoinPlaceholders(sep, parts[1..]);
      PlaceholdersAppend(parts[0] + sep, Join(sep, parts[1..]));
      PlaceholdersAppend(parts[0], sep);
    }
  }

  /** A name that is safe to splice into the where-string. */
  predicate NoPlaceholder(s: string) {
    '?' !in s
  }

  lemma {:induction false} NoPlaceholderCount(s: string)
    requires NoPlaceholder(s)
    ensures Placeholders(s) == 0
    decreases |s|
  {
    if |s| > 0 {
      assert s[0] != '?';
      assert forall c :: c in s[1..] ==> c in s;
      NoPlaceholderCount(s[1..]);
    }
  }

  /** The placeholders one conjunction is meant to carry: one per key field for an equality, none for IS NULL. */
  function Expected(c: Conjunction): nat {
    if c.KeysEqual? then |c.keyfields| else 0
  }

  lemma {:induction false} TermsPlaceholders(c: Conjunction, keyfields: seq<string>)
    requires NoPlaceholder(c.alias)
    requires forall k :: k in keyfields ==> NoPlaceholder(k)
    ensures SumPlaceholders(Terms(c, keyfields)) == if c.KeysEqual? then |keyfields| else 0
    decreases |keyfields|
  {
    if |keyfields| > 0 {
      var k := keyfields[0];
      NoPlaceholderCount(c.alias);
      NoPlaceholderCount(k);
      PlaceholdersAppend(c.alias, ".");
      PlaceholdersAppend(c.alias + ".", k);
      if c.KeysEqual? {
        PlaceholdersAppend(c.alias + "." + k, " = ?");
      } else {
        PlaceholdersAppend(c.alias + "." + k, " is NULL");
      }
      assert Terms(c, keyfields)[1..] == Terms(c, keyfields[1..]);
      TermsPlaceholders(c, keyfields[1..]);
    }
  }

  lemma ConjunctionPlaceholders(c: Conjunction)
    requires NoPlaceholder(c.alias)
    requires forall k :: k in c.keyfields ==> NoPlaceholder(k)
    ensures Placeholders(RenderConjunction(c)) == Expected(c)
  {
    var body := Join(" and ", Terms(c, c.keyfields));
    JoinPlaceholders(" and ", Terms(c, c.keyfields));
    TermsPlaceholders(c, c.keyfields);
    PlaceholdersAppend("( ", body);
    PlaceholdersAppend("( " + body, " )");
  }

  function SumExpected(ds: seq<Conjunction>): nat {
    if |ds| == 0 then 0 else Expected(ds[0]) + SumExpected(ds[1..])
  }

  lemma {:induction false} RenderAllPlaceholders(ds: seq<Conjunction>)
    requires forall c :: c in ds ==> NoPlaceholder(c.alias) && forall k :: k in c.keyfields ==> NoPlaceholder(k)
    ensures SumPlaceholders(RenderAll(ds)) == SumExpected(ds)
    decreases |ds|
  {
    if |ds| > 0 {
      ConjunctionPlaceholders(ds[0]);
      assert RenderAll(ds)[1..] == RenderAll(ds[1..]);
      RenderAllPlaceholders(ds[1..]);
    }
  }

  lemma {:induction false} SumExpectedAppend(a: seq<Conjunction>, b: seq<Conjunction>)
    ensures SumExpected(a + b) == SumExpected(a) + SumExpected(b)
    decreases |a|
  {
    if |a| == 0 {
      assert a + b == b;
    } else {
      assert (a + b)[1..] == a[1..] + b;
      SumExpectedAppend(a[1..], b);
    }
  }

  lemma {:induction false} BuiltExpected(aliases: seq<string>, keyfields: seq<string>, record: map<string, Scalar>)
    ensures SumExpected(BuildFilter(aliases, keyfields, record).disjuncts) == |aliases| * |keyfields|
    decreases |aliases|
  {
    if |aliases| > 0 {
      var n := |aliases| - 1;
      var f := BuildFilter(aliases[..n], keyfields, record);
      var pair := [KeysEqual(aliases[n], keyfields), KeysNull(aliases[n], keyfields)];
      assert BuildFilter(aliases, keyfields, record).disjuncts == f.disjuncts + pair;
      BuiltExpected(aliases[..n], keyfields, record);
      SumExpectedAppend(f.disjuncts, pair);
      assert SumExpected(pair) == |keyfields| by {
        assert pair[1..] == [KeysNull(aliases[n], keyfields)];
        assert SumExpected(pair[1..][1..]) == 0;
      }
      MulStep(n, |keyfields|);
    }
  }

  /**
   When no alias or key-field name contains a `?`, the rendered where-string
   holds exactly as many `?` placeholders as the filter has arguments, so the
   executor binds every argument.
   */
  lemma PlaceholdersMatchArgs(aliases: seq<string>, keyfields: seq<string>, record: map<string, Scalar>)
    requires forall a :: a in aliases ==> NoPlaceholder(a)
    requires forall k :: k in keyfields ==> NoPlaceholder(k)
    ensures Placeholders(Render(BuildFilter(aliases, keyfields, record))) == |BuildFilter(aliases, keyfields, record).args|
  {
    var f := BuildFilter(aliases, keyfields, record);
    forall c | c in f.disjuncts ensures NoPlaceholder(c.alias) && c.keyfields == keyfields {
      var i :| 0 <= i < |f.disjuncts| && f.disjuncts[i] == c;
      var a := i / 2;
      assert i == 2 * a || i == 2 * a + 1;
      assert aliases[a] in aliases;
    }
    JoinPlaceholders(" or ", RenderAll(f.disjuncts));
    RenderAllPlaceholders(f.disjuncts);
    BuiltExpected(aliases, keyfields, record);
    ArgCount(aliases, keyfields, record);
  }
}
