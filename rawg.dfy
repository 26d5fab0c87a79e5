/** The catalogue query client (api/rawg.ts): turning a query record into a
    query string and the request URL. The network call itself is not part of
    this module; see Finder for how its answers enter the model. */
module Rawg {
  import opened Wrappers
  import UriComponent

  const BaseUrl: string := "https://api.rawg.io/api"

  /** A value of the `Query` record: string | number | undefined. Numbers are
      the integral ones the sampler sends. */
  datatype Value = Str(s: string) | Num(n: int) | Undefined

  /** One own property of a query object, in Object.entries order. */
  type Entry = (string, Value)

  /* ---------------------------------------------------------------------
     String(v)
     --------------------------------------------------------------------- */

  function Digit(d: nat): char
    requires d < 10
  {
    "0123456789"[d]
  }

  function Digits(n: nat): (r: string)
    ensures r != []
  {
    if n < 10 then [Digit(n)] else Digits(n / 10) + [Digit(n % 10)]
  }

  /** String(n) for an integer of magnitude below 10^21: optional '-', then
      decimal digits. Larger magnitudes print in exponent notation, and
      integers beyond 2^53 are not exact JavaScript numbers; no query here
      sends either. */
  function DecimalString(n: int): (r: string)
    ensures r != []
  {
    if n < 0 then "-" + Digits(-n) else Digits(n)
  }

  /** String(v) */
  function ValueString(v: Value): string
    requires !v.Undefined?
  {
    match v
    case Str(s) => s
    case Num(n) => DecimalString(n)
  }

  lemma DigitInjective(a: nat, b: nat)
    requires a < 10 && b < 10 && Digit(a) == Digit(b)
    ensures a == b
  {
  }

  lemma {:induction false} DigitsLeadDigit(n: nat)
    ensures '0' <= Digits(n)[0] <= '9'
  {
    if n >= 10 {
      DigitsLeadDigit(n / 10);
    }
  }

  lemma {:induction false} DigitsInjective(a: nat, b: nat)
    requires Digits(a) == Digits(b)
    ensures a == b
    decreases a
  {
    if a < 10 && b < 10 {
      DigitInjective(a, b);
    } else if a >= 10 && b >= 10 {
      var da, db := Digits(a), Digits(b);
      assert da[|da| - 1] == Digit(a % 10) && db[|db| - 1] == Digit(b % 10);
      DigitInjective(a % 10, b % 10);
      assert da[..|da| - 1] == Digits(a / 10);
      assert db[..|db| - 1] == Digits(b / 10);
      DigitsInjective(a / 10, b / 10);
    }
  }

  /** Different integers print differently. */
  lemma DecimalStringInjective(a: int, b: int)
    requires DecimalString(a) == DecimalString(b)
    ensures a == b
  {
    if a < 0 && b < 0 {
      var da, db := Digits(-a), Digits(-b);
      assert ("-" + da)[1..] == da && ("-" + db)[1..] == db;
      DigitsInjective(-a, -b);
    } else if a >= 0 && b >= 0 {
      DigitsInjective(a, b);
    } else if a < 0 {
      DigitsLeadDigit(b);
    } else {
      DigitsLeadDigit(a);
    }
  }

  /* ---------------------------------------------------------------------
     toQueryString (api/rawg.ts:10-14)
     --------------------------------------------------------------------- */

  /** The filter of line 12: `v !== undefined && v !== ""`. */
  predicate Present(v: Value) {
    !v.Undefined? && v != Str("")
  }

  predicate AllPresent(q: seq<Entry>) {
    forall i :: 0 <= i < |q| ==> Present(q[i].1)
  }

  /** The entries that survive the filter. */
  function Kept(q: seq<Entry>): (r: seq<Entry>)
    ensures AllPresent(r)
    ensures forall e :: e in r <==> e in q && Present(e.1)
  {
    if q == [] then []
    else if Present(q[0].1) then [q[0]] + Kept(q[1..])
    else Kept(q[1..])
  }

  /** `${encodeURIComponent(k)}=${encodeURIComponent(String(v))}` */
  function Param(e: Entry): string
    requires Present(e.1)
  {
    UriComponent.Encode(e.0) + "=" + UriComponent.Encode(ValueString(e.1))
  }

  function Params(q: seq<Entry>): (r: seq<string>)
    requires AllPresent(q)
    ensures |r| == |q|
  {
    if q == [] then [] else [Param(q[0])] + Params(q[1..])
  }

  /** Array.prototype.join(sep) */
  function Join(parts: seq<string>, sep: char): string {
    if parts == [] then []
    else if |parts| == 1 then parts[0]
    else parts[0] + [sep] + Join(parts[1..], sep)
  }

  /** toQueryString(q) */
  function ToQueryString(q: seq<Entry>): string {
    Join(Params(Kept(q)), '&')
  }

  /* ---------------------------------------------------------------------
     The request URL of rawgGet (api/rawg.ts:17-18)
     --------------------------------------------------------------------- */

  /** Position of property k among an object's entries. */
  function IndexOf(obj: seq<Entry>, k: string): (r: Option<nat>)
    ensures r.Some? ==> r.value < |obj| && obj[r.value].0 == k
    ensures r.None? ==> forall i :: 0 <= i < |obj| ==> obj[i].0 != k
  {
    if obj == [] then None
    else if obj[0].0 == k then Some(0)
    else
      var i :- IndexOf(obj[1..], k);
      Some(i + 1)
  }

  /** obj[k] = v: an existing property keeps its place, a new one goes last. */
  function Assign(obj: seq<Entry>, k: string, v: Value): seq<Entry> {
    match IndexOf(obj, k)
    case Some(i) => obj[i := (k, v)]
    case None => obj + [(k, v)]
  }

  /** `{ ...obj, ...q }` */
  function Spread(obj: seq<Entry>, q: seq<Entry>): seq<Entry>
    decreases |q|
  {
    if q == [] then obj else Spread(Assign(obj, q[0].0, q[0].1), q[1..])
  }

  /** `{ key: KEY ?? "", ...query }`: None is an unset configuration value. */
  function WithKey(key: Option<string>, query: seq<Entry>): seq<Entry> {
    Spread([("key", Str(key.GetOr("")))], query)
  }

  /** The URL rawgGet(path, query) requests. */
  function RequestUrl(key: Option<string>, path: string, query: seq<Entry>): string {
    BaseUrl + path + "?" + ToQueryString(WithKey(key, query))
  }

  /* ---------------------------------------------------------------------
     Reading a URL back: the partner of RequestUrl.
     --------------------------------------------------------------------- */

  /** String.prototype.split(sep) for a one-character separator. */
  function Split(s: string, sep: char): (parts: seq<string>)
    ensures |parts| >= 1
  {
    if s == [] then [[]]
    else
      var tail := Split(s[1..], sep);
      if s[0] == sep then [[]] + tail else [[s[0]] + tail[0]] + tail[1..]
  }

  /** The text before and after the first sep, if there is one. */
  function SplitFirst(s: string, sep: char): Option<(string, string)> {
    if s == [] then None
    else if s[0] == sep then Some(([], s[1..]))
    else
      var r :- SplitFirst(s[1..], sep);
      Some(([s[0]] + r.0, r.1))
  }

  function ParsePair(p: string): Option<(string, string)> {
    var kv :- SplitFirst(p, '=');
    var k :- UriComponent.Decode(kv.0);
    var v :- UriComponent.Decode(kv.1);
    Some((k, v))
  }

  function ParsePairs(ps: seq<string>): Option<seq<(string, string)>> {
    if ps == [] then Some([])
    else
      var p :- ParsePair(ps[0]);
      var rest :- ParsePairs(ps[1..]);
      Some([p] + rest)
  }

  /** The decoded name/value pairs of a query string. */
  function ParseQuery(qs: string): Option<seq<(string, string)>> {
    if qs == [] then Some([]) else ParsePairs(Split(qs, '&'))
  }

  /** The part before '?' and the decoded pairs after it. */
  function ParseUrl(url: string): Option<(string, seq<(string, string)>)> {
    var parts :- SplitFirst(url, '?');
    var pairs :- ParseQuery(parts.1);
    Some((parts.0, pairs))
  }

  /** The name/value pairs an entry list stands for. */
  function Decoded(q: seq<Entry>): (r: seq<(string, string)>)
    requires AllPresent(q)
    ensures |r| == |q|
  {
    if q == [] then [] else [(q[0].0, ValueString(q[0].1))] + Decoded(q[1..])
  }

  /** The pair a configured key contributes: none when it is unset or empty. */
  function KeyPair(key: Option<string>): seq<(string, string)> {
    if key.Some? && key.value != "" then [("key", key.value)] else []
  }

  predicate DistinctKeys(q: seq<Entry>) {
    forall i, j :: 0 <= i < j < |q| ==> q[i].0 != q[j].0
  }

  predicate Lacks(q: seq<Entry>, k: string) {
    forall i :: 0 <= i < |q| ==> q[i].0 != k
  }

  /* ---------------------------------------------------------------------
     Properties of the filter
     --------------------------------------------------------------------- */

  /** Filtering distributes over concatenation, so Kept keeps the entries'
      order; with Kept's membership contract this characterises the filter. */
  lemma {:induction false} KeptAppend(a: seq<Entry>, b: seq<Entry>)
    ensures Kept(a + b) == Kept(a) + Kept(b)
  {
    if a != [] {
      KeptAppend(a[1..], b);
      assert (a + b)[0] == a[0] && (a + b)[1..] == a[1..] + b;
      var head := if Present(a[0].1) then [a[0]] else [];
      assert Kept(a) == head + Kept(a[1..]);
      assert Kept(a + b) == head + Kept(a[1..] + b);
    } else {
      assert a + b == b;
    }
  }

  /** An entry that is present is kept, one that is not is dropped. */
  lemma KeptSingle(e: Entry)
    ensures Kept([e]) == if Present(e.1) then [e] else []
  {
  }

  /* ---------------------------------------------------------------------
     Properties of join and split
     --------------------------------------------------------------------- */

  lemma {:induction false} SplitWithout(a: string, sep: char)
    requires sep !in a
    ensures Split(a, sep) == [a]
  {
    if a != [] {
      SplitWithout(a[1..], sep);
      assert [a[0]] + a[1..] == a;
    }
  }

  lemma {:induction false} SplitAt(a: string, b: string, sep: char)
    requires sep !in a
    ensures Split(a + [sep] + b, sep) == [a] + Split(b, sep)
  {
    var s := a + [sep] + b;
    if a == [] {
      assert s[1..] == b;
    } else {
      SplitAt(a[1..], b, sep);
      assert s[1..] == a[1..] + [sep] + b;
      assert [a[0]] + a[1..] == a;
    }
  }

  /** Split undoes Join when no part contains the separator. */
  lemma {:induction false} SplitJoin(parts: seq<string>, sep: char)
    requires |parts| >= 1
    requires forall i :: 0 <= i < |parts| ==> sep !in parts[i]
    ensures Split(Join(parts, sep), sep) == parts
  {
    if |parts| == 1 {
      SplitWithout(parts[0], sep);
    } else {
      SplitJoin(parts[1..], sep);
      SplitAt(parts[0], Join(parts[1..], sep), sep);
      assert [parts[0]] + parts[1..] == parts;
    }
  }

  lemma {:induction false} SplitFirstAt(a: string, b: string, sep: char)
    requires sep !in a
    ensures SplitFirst(a + [sep] + b, sep) == Some((a, b))
  {
    var s := a + [sep] + b;
    if a == [] {
      assert s[1..] == b;
    } else {
      SplitFirstAt(a[1..], b, sep);
      assert s[1..] == a[1..] + [sep] + b;
      assert [a[0]] + a[1..] == a;
    }
  }

  lemma {:induction false} JoinEnds(parts: seq<string>, sep: char)
    requires |parts| >= 1
    requires forall i :: 0 <= i < |parts| ==> parts[i] != []
    ensures Join(parts, sep) != []
    ensures Join(parts, sep)[0] == parts[0][0]
    ensures Join(parts, sep)[|Join(parts, sep)| - 1] == parts[|parts| - 1][|parts[|parts| - 1]| - 1]
  {
    if |parts| > 1 {
      JoinEnds(parts[1..], sep);
    }
  }

  /* ---------------------------------------------------------------------
     Properties of toQueryString
     --------------------------------------------------------------------- */

  /** A parameter is never empty and holds no '&'. */
  lemma ParamNoSeparator(e: Entry)
    requires Present(e.1)
    ensures Param(e) != [] && '&' !in Param(e)
  {
    UriComponent.EncodeAvoidsSeparators(e.0);
    UriComponent.EncodeAvoidsSeparators(ValueString(e.1));
  }

  /** A parameter splits at its first '=' into the two encoded halves, which
      decode back to the name and String(value). */
  lemma ParamParses(e: Entry)
    requires Present(e.1)
    ensures ParsePair(Param(e)) == Some((e.0, ValueString(e.1)))
  {
    var k, v := UriComponent.Encode(e.0), UriComponent.Encode(ValueString(e.1));
    UriComponent.EncodeAvoidsSeparators(e.0);
    UriComponent.DecodeEncode(e.0);
    UriComponent.DecodeEncode(ValueString(e.1));
    SplitFirstAt(k, v, '=');
    assert Param(e) == k + ['='] + v;
  }

  lemma {:induction false} ParsePairsParams(q: seq<Entry>)
    requires AllPresent(q)
    ensures ParsePairs(Params(q)) == Some(Decoded(q))
  {
    if q != [] {
      ParamParses(q[0]);
      ParsePairsParams(q[1..]);
      assert Params(q)[1..] == Params(q[1..]);
    }
  }

  /** The query string is empty exactly when the filter drops every entry. */
  lemma QueryStringEmpty(q: seq<Entry>)
    ensures ToQueryString(q) == [] <==> Kept(q) == []
  {
    var ps := Params(Kept(q));
    if ps != [] {
      ParamAt(Kept(q), 0);
      JoinStartsWithFirst(ps, '&');
    }
  }

  lemma JoinStartsWithFirst(parts: seq<string>, sep: char)
    requires parts != []
    ensures |Join(parts, sep)| >= |parts[0]| && Join(parts, sep)[..|parts[0]|] == parts[0]
  {
  }

  /** No leading or trailing '&', and the string splits on '&' into exactly
      one `name=value` part per kept entry. */
  lemma QueryStringShape(q: seq<Entry>)
    requires Kept(q) != []
    ensures var r := ToQueryString(q);
      r != [] && r[0] != '&' && r[|r| - 1] != '&' &&
      Split(r, '&') == Params(Kept(q))
  {
    var ps := Params(Kept(q));
    forall i | 0 <= i < |ps|
      ensures '&' !in ps[i] && ps[i] != []
    {
      ParamAt(Kept(q), i);
    }
    ParamAt(Kept(q), 0);
    ParamAt(Kept(q), |ps| - 1);
    JoinEnds(ps, '&');
    SplitJoin(ps, '&');
  }

  lemma {:induction false} ParamIndex(q: seq<Entry>, i: nat)
    requires AllPresent(q) && i < |q|
    ensures Params(q)[i] == Param(q[i])
  {
    if i > 0 {
      ParamIndex(q[1..], i - 1);
    }
  }

  lemma ParamAt(q: seq<Entry>, i: nat)
    requires AllPresent(q) && i < |q|
    ensures '&' !in Params(q)[i] && Params(q)[i] != []
  {
    ParamIndex(q, i);
    ParamNoSeparator(q[i]);
  }

  /** Round trip: splitting the query string on '&', then on the first '=',
      and decoding both sides gives back exactly the kept entries, in order. */
  lemma QueryRoundTrip(q: seq<Entry>)
    ensures ParseQuery(ToQueryString(q)) == Some(Decoded(Kept(q)))
  {
    QueryStringEmpty(q);
    if Kept(q) != [] {
      QueryStringShape(q);
      ParsePairsParams(Kept(q));
    }
  }

  /* ---------------------------------------------------------------------
     Properties of the spread and the URL
     --------------------------------------------------------------------- */

  /** Spreading properties the object does not have yet appends them. */
  lemma {:induction false} SpreadFresh(obj: seq<Entry>, q: seq<Entry>)
    requires DistinctKeys(q)
    requires forall i, j :: 0 <= i < |obj| && 0 <= j < |q| ==> obj[i].0 != q[j].0
    ensures Spread(obj, q) == obj + q
    decreases |q|
  {
    if q != [] {
      var obj', rest := obj + [q[0]], q[1..];
      AssignFresh(obj, q[0].0, q[0].1);
      FreshRest(obj, q);
      SpreadFresh(obj', rest);
      assert obj' + rest == obj + q;
    }
  }

  /** Assigning a new property appends it. */
  lemma AssignFresh(obj: seq<Entry>, k: string, v: Value)
    requires forall i :: 0 <= i < |obj| ==> obj[i].0 != k
    ensures Assign(obj, k, v) == obj + [(k, v)]
  {
  }

  lemma FreshRest(obj: seq<Entry>, q: seq<Entry>)
    requires q != [] && DistinctKeys(q)
    requires forall i, j :: 0 <= i < |obj| && 0 <= j < |q| ==> obj[i].0 != q[j].0
    ensures DistinctKeys(q[1..])
    ensures forall i, j :: 0 <= i < |obj| + 1 && 0 <= j < |q| - 1 ==> (obj + [q[0]])[i].0 != q[1..][j].0
  {
    var obj', rest := obj + [q[0]], q[1..];
    forall i, j | 0 <= i < |obj'| && 0 <= j < |rest|
      ensures obj'[i].0 != rest[j].0
    {
      assert rest[j] == q[j + 1];
      if i == |obj| {
        assert obj'[i] == q[0];
      } else {
        assert obj'[i] == obj[i];
      }
    }
    forall i, j | 0 <= i < j < |rest|
      ensures rest[i].0 != rest[j].0
    {
      assert rest[i] == q[i + 1] && rest[j] == q[j + 1];
    }
  }

  /** Whatever the query holds, `key` stays the first property. */
  lemma {:induction false} SpreadKeepsFirst(obj: seq<Entry>, q: seq<Entry>)
    requires obj != []
    ensures |Spread(obj, q)| >= |obj| && Spread(obj, q)[0].0 == obj[0].0
    decreases |q|
  {
    if q != [] {
      SpreadKeepsFirst(Assign(obj, q[0].0, q[0].1), q[1..]);
    }
  }

  lemma KeyFirst(key: Option<string>, query: seq<Entry>)
    ensures WithKey(key, query) != [] && WithKey(key, query)[0].0 == "key"
  {
    SpreadKeepsFirst([("key", Str(key.GetOr("")))], query);
  }

  /** The URL is the base, the path, '?' and the query string; reading it back
      gives the configured key first (nothing when none is configured),
      followed by the query's present entries in order. */
  lemma UrlRoundTrip(key: Option<string>, path: string, query: seq<Entry>)
    requires '?' !in path
    requires DistinctKeys(query) && Lacks(query, "key")
    ensures ParseUrl(RequestUrl(key, path, query)) == Some((BaseUrl + path, KeyPair(key) + Decoded(Kept(query))))
  {
    var full := WithKey(key, query);
    KeyedPairs(key, query);
    QueryRoundTrip(full);
    var qs := ToQueryString(full);
    assert RequestUrl(key, path, query) == (BaseUrl + path) + ['?'] + qs;
    BaseUrlPlain();
    SplitFirstAt(BaseUrl + path, qs, '?');
  }

  lemma BaseUrlPlain()
    ensures '?' !in BaseUrl
  {
  }

  /** The key spread in front of a query contributes its pair, if any, first. */
  lemma KeyedPairs(key: Option<string>, query: seq<Entry>)
    requires DistinctKeys(query) && Lacks(query, "key")
    ensures Decoded(Kept(WithKey(key, query))) == KeyPair(key) + Decoded(Kept(query))
  {
    var head: Entry := ("key", Str(key.GetOr("")));
    SpreadFresh([head], query);
    KeptAppend([head], query);
    KeptSingle(head);
    assert Decoded(Kept([head])) == KeyPair(key);
    DecodedAppend(Kept([head]), Kept(query));
  }

  /** With no key configured and nothing kept, the URL ends in a bare '?'. */
  lemma BareUrl(key: Option<string>, path: string, query: seq<Entry>)
    requires key.None? || key == Some("")
    requires Kept(query) == []
    ensures RequestUrl(key, path, query) == BaseUrl + path + "?"
  {
    var head: Entry := ("key", Str(key.GetOr("")));
    SpreadKeptEmpty([head], query);
    QueryStringEmpty(WithKey(key, query));
  }

  /** The filter keeps an entry list whose values are all present. */
  lemma {:induction false} AllKept(q: seq<Entry>)
    requires AllPresent(q)
    ensures Kept(q) == q
  {
    if q != [] {
      AllKept(q[1..]);
      assert [q[0]] + q[1..] == q;
    }
  }

  /** The filter drops an entry list whose values are all absent. */
  lemma {:induction false} NothingKept(q: seq<Entry>)
    requires forall i :: 0 <= i < |q| ==> !Present(q[i].1)
    ensures Kept(q) == []
  {
    if q != [] {
      NothingKept(q[1..]);
    }
  }

  /** Spreading an object with nothing to send by a query with nothing to
      send leaves nothing to send. */
  lemma {:induction false} SpreadKeptEmpty(obj: seq<Entry>, q: seq<Entry>)
    requires Kept(obj) == [] && Kept(q) == []
    ensures Kept(Spread(obj, q)) == []
    decreases |q|
  {
    if q != [] {
      var e := q[0];
      assert !Present(e.1) by {
        KeptAppend([e], q[1..]);
        assert [e] + q[1..] == q;
        KeptSingle(e);
      }
      assert Kept(q[1..]) == [] by {
        KeptAppend([e], q[1..]);
        assert [e] + q[1..] == q;
      }
      var obj' := Assign(obj, e.0, e.1);
      assert Kept(obj') == [] by {
        forall i | 0 <= i < |obj'|
          ensures !Present(obj'[i].1)
        {
          if obj'[i] !in obj {
            assert obj'[i] == e;
          }
        }
        NothingKept(obj');
      }
      SpreadKeptEmpty(obj', q[1..]);
    }
  }

  lemma {:induction false} DecodedAppend(a: seq<Entry>, b: seq<Entry>)
    requires AllPresent(a) && AllPresent(b)
    ensures AllPresent(a + b) && Decoded(a + b) == Decoded(a) + Decoded(b)
  {
    if a != [] {
      DecodedAppend(a[1..], b);
      assert (a + b)[0] == a[0] && (a + b)[1..] == a[1..] + b;
      var head := [(a[0].0, ValueString(a[0].1))];
      assert Decoded(a + b) == head + Decoded(a[1..] + b);
    } else {
      assert a + b == b;
    }
  }
}
