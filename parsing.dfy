/** The string helpers of internal/util/parsing.go: comma splitting with
    space trimming, the list parser that stops at the first failing part,
    ParseStringAs with its quote trimming and default, the ParseString and
    ParseInt64 conversions of loosely typed values, and RandomString. The
    element parsers (strconv, time, decimal), float formatting and uuid
    generation are parameters. */
module Parsing {
  import opened Numeric
  import opened Wrappers

  // ---------------------------------------------------------------------------
  // Trimming

  /** unicode.IsSpace. */
  predicate IsSpace(c: char)
  {
    || c == '\t' || c == '\n' || c == '\U{000B}' || c == '\U{000C}' || c == '\r' || c == ' '
    || c == '\U{0085}' || c == '\U{00A0}' || c == '\U{1680}'
    || ('\U{2000}' <= c <= '\U{200A}')
    || c == '\U{2028}' || c == '\U{2029}' || c == '\U{202F}' || c == '\U{205F}' || c == '\U{3000}'
  }

  predicate IsQuote(c: char)
  {
    c == '"'
  }

  /** The number of leading characters that drop accepts. */
  function LeadCount(s: string, drop: char -> bool): (n: nat)
    ensures n <= |s|
    ensures forall k | 0 <= k < n :: drop(s[k])
    ensures n < |s| ==> !drop(s[n])
  {
    if s == [] || !drop(s[0]) then 0 else 1 + LeadCount(s[1..], drop)
  }

  /** Where the run of trailing characters that drop accepts starts. */
  function TrailStart(s: string, drop: char -> bool): (m: nat)
    ensures m <= |s|
    ensures forall k | m <= k < |s| :: drop(s[k])
    ensures m > 0 ==> !drop(s[m - 1])
  {
    if s == [] || !drop(s[|s| - 1]) then |s| else TrailStart(s[..|s| - 1], drop)
  }

  /** strings.TrimFunc: drops the leading and then the trailing characters
      that drop accepts. */
  function Trim(s: string, drop: char -> bool): string
  {
    var u := s[LeadCount(s, drop)..];
    u[..TrailStart(u, drop)]
  }

  /** The trim is the longest middle part of s that neither starts nor ends
      with a dropped character; everything around it is dropped. */
  lemma TrimShape(s: string, drop: char -> bool)
    ensures Trim(s, drop) == [] || (!drop(Trim(s, drop)[0]) && !drop(Trim(s, drop)[|Trim(s, drop)| - 1]))
    ensures LeadCount(s, drop) + |Trim(s, drop)| <= |s|
    ensures Trim(s, drop) == s[LeadCount(s, drop)..LeadCount(s, drop) + |Trim(s, drop)|]
    ensures forall k | 0 <= k < |s| && !(LeadCount(s, drop) <= k < LeadCount(s, drop) + |Trim(s, drop)|) :: drop(s[k])
  {
    var n := LeadCount(s, drop);
    var u := s[n..];
    var m := TrailStart(u, drop);
    assert Trim(s, drop) == s[n..n + m];
    TrailInPlace(s, drop, n, m);
    MiddleShape(s, drop, n, m);
  }

  /** The trailing run of the rest after n, seen at its place in s. */
  lemma TrailInPlace(s: string, drop: char -> bool, n: nat, m: nat)
    requires n <= |s| && m == TrailStart(s[n..], drop)
    ensures n + m <= |s|
    ensures forall k | n + m <= k < |s| :: drop(s[k])
    ensures m > 0 ==> !drop(s[n + m - 1])
  {
    var u := s[n..];
    forall k | n + m <= k < |s|
      ensures drop(s[k])
    {
      assert s[k] == u[k - n];
    }
    if m > 0 {
      assert s[n + m - 1] == u[m - 1];
    }
  }

  /** A middle part between a dropped prefix and a dropped suffix that stop
      at kept characters. */
  lemma MiddleShape(s: string, drop: char -> bool, n: nat, m: nat)
    requires n + m <= |s|
    requires forall k | 0 <= k < n :: drop(s[k])
    requires n < |s| ==> !drop(s[n])
    requires forall k | n + m <= k < |s| :: drop(s[k])
    requires m > 0 ==> !drop(s[n + m - 1])
    ensures m == 0 || (!drop(s[n..n + m][0]) && !drop(s[n..n + m][m - 1]))
    ensures forall k | 0 <= k < |s| && !(n <= k < n + m) :: drop(s[k])
  {
  }

  function TrimSpace(s: string): string
  {
    Trim(s, IsSpace)
  }

  /** strings.Trim(v, `"`). */
  function TrimQuotes(s: string): string
  {
    Trim(s, IsQuote)
  }

  /** The trimmed part is found again inside s, with only dropped characters
      around it; Trim is determined by these facts. */
  lemma TrimUnique(s: string, drop: char -> bool, i: nat, j: nat)
    requires i <= j <= |s|
    requires forall k | 0 <= k < i :: drop(s[k])
    requires forall k | j <= k < |s| :: drop(s[k])
    requires i == j || (!drop(s[i]) && !drop(s[j - 1]))
    ensures Trim(s, drop) == s[i..j]
  {
    TrimShape(s, drop);
    var t := Trim(s, drop);
    var n := LeadCount(s, drop);
    assert i < j ==> n == i;
    assert t != [] ==> s[n] == t[0] && s[n + |t| - 1] == t[|t| - 1];
  }

  /** Trimming twice is trimming once. */
  lemma TrimIdempotent(s: string, drop: char -> bool)
    ensures Trim(Trim(s, drop), drop) == Trim(s, drop)
  {
    TrimShape(s, drop);
    var t := Trim(s, drop);
    TrimUnique(t, drop, 0, |t|);
  }

  /** Dropped characters added around a string change nothing: a value that
      arrives quoted as a JSON string is parsed like the bare value. */
  lemma TrimPadded(s: string, drop: char -> bool, c: char)
    requires drop(c)
    ensures Trim([c] + s + [c], drop) == Trim(s, drop)
  {
    TrimShape(s, drop);
    var t := Trim(s, drop);
    var i := LeadCount(s, drop) + 1;
    PaddedDropped(s, drop, c, 0, i);
    PaddedDropped(s, drop, c, i + |t|, |s| + 2);
    PaddedMiddle(s, drop, c, i);
    TrimUnique([c] + s + [c], drop, i, i + |t|);
  }

  /** Inside the padded string, the trimmed part of s sits one place later. */
  lemma PaddedMiddle(s: string, drop: char -> bool, c: char, i: nat)
    requires i == LeadCount(s, drop) + 1
    ensures i + |Trim(s, drop)| <= |s| + 2
    ensures ([c] + s + [c])[i..i + |Trim(s, drop)|] == Trim(s, drop)
    ensures Trim(s, drop) == [] || (!drop(([c] + s + [c])[i]) && !drop(([c] + s + [c])[i + |Trim(s, drop)| - 1]))
  {
    TrimShape(s, drop);
    var t := Trim(s, drop);
    var p := [c] + s + [c];
    forall k | 0 <= k < |t|
      ensures p[i + k] == t[k]
    {
      assert t[k] == s[i - 1 + k];
    }
  }

  /** Positions of the padded string outside the trimmed part are dropped. */
  lemma PaddedDropped(s: string, drop: char -> bool, c: char, lo: nat, hi: nat)
    requires drop(c)
    requires lo <= hi <= |s| + 2
    requires || (lo == 0 && hi == LeadCount(s, drop) + 1)
             || (lo == LeadCount(s, drop) + 1 + |Trim(s, drop)| && hi == |s| + 2)
    ensures forall k | lo <= k < hi :: drop(([c] + s + [c])[k])
  {
    TrimShape(s, drop);
    var p := [c] + s + [c];
    forall k | lo <= k < hi
      ensures drop(p[k])
    {
      if 0 < k < |s| + 1 {
        assert p[k] == s[k - 1];
        assert drop(s[k - 1]);
      }
    }
  }

  // ---------------------------------------------------------------------------
  // Splitting on commas

  /** The number of commas in s. */
  function Commas(s: string): nat
  {
    if s == [] then 0 else (if s[0] == ',' then 1 else 0) + Commas(s[1..])
  }

  /** strings.Split(s, ","): the parts between the commas, one more than
      there are commas; "" gives [""]. */
  function Split(s: string): (parts: seq<string>)
    ensures |parts| == Commas(s) + 1
  {
    if s == [] then [[]]
    else
      var rest := Split(s[1..]);
      if s[0] == ',' then [[]] + rest
      else [[s[0]] + rest[0]] + rest[1..]
  }

  /** No part holds a comma. */
  lemma {:induction false} SplitCommaFree(s: string)
    ensures forall i | 0 <= i < |Split(s)| :: ',' !in Split(s)[i]
  {
    if s != [] {
      assert s == [s[0]] + s[1..];
      SplitCommaFree(s[1..]);
      var rest := Split(s[1..]);
      if s[0] != ',' {
        var first := [s[0]] + rest[0];
        assert Split(s) == [first] + rest[1..];
        assert ',' !in first by {
          assert ',' !in rest[0];
        }
        forall i | 1 <= i < |Split(s)|
          ensures ',' !in Split(s)[i]
        {
          assert Split(s)[i] == rest[i];
        }
      } else {
        assert Split(s) == [[]] + rest;
        forall i | 1 <= i < |Split(s)|
          ensures ',' !in Split(s)[i]
        {
          assert Split(s)[i] == rest[i - 1];
        }
      }
    }
  }

  /** strings.Join(parts, ","). */
  function Join(parts: seq<string>): string
  {
    if parts == [] then []
    else if |parts| == 1 then parts[0]
    else parts[0] + "," + Join(parts[1..])
  }

  /** Joining the parts gives back the string. */
  lemma {:induction false} JoinSplit(s: string)
    ensures Join(Split(s)) == s
  {
    if s != [] {
      var tail := s[1..];
      assert s == [s[0]] + tail;
      JoinSplit(tail);
      var rest := Split(tail);
      if s[0] == ',' {
        assert Split(s) == [[]] + rest;
        JoinCons([], rest);
        assert [] + "," + tail == s;
      } else {
        assert Split(s) == [[s[0]] + rest[0]] + rest[1..];
        JoinPrepend(s[0], rest);
      }
    }
  }

  /** Joining after a character is put in front of the first part puts it in
      front of the joined string. */
  lemma JoinPrepend(c: char, rest: seq<string>)
    requires rest != []
    ensures Join([[c] + rest[0]] + rest[1..]) == [c] + Join(rest)
  {
    var first := [c] + rest[0];
    JoinCons(first, rest[1..]);
    if |rest| == 1 {
      assert Join(rest) == rest[0];
    } else {
      var j := Join(rest[1..]);
      assert Join(rest) == rest[0] + "," + j;
      PrependJoined(c, rest[0], j);
    }
  }

  /** Concatenation regroups around the comma. */
  lemma PrependJoined(c: char, a: string, b: string)
    ensures [c] + a + "," + b == [c] + (a + "," + b)
  {
  }

  /** Joining one more part in front adds it and a comma, when there are
      parts after it. */
  lemma JoinCons(p: string, rest: seq<string>)
    ensures Join([p] + rest) == if rest == [] then p else p + "," + Join(rest)
  {
    assert ([p] + rest)[0] == p;
    assert ([p] + rest)[1..] == rest;
  }

  /** Splitting what was joined gives back the parts when no part holds a
      comma. */
  lemma {:induction false} SplitJoin(parts: seq<string>)
    requires |parts| > 0
    requires forall i | 0 <= i < |parts| :: ',' !in parts[i]
    ensures Split(Join(parts)) == parts
  {
    if |parts| == 1 {
      assert parts[0] + [] == parts[0];
      SplitPart(parts[0], []);
    } else {
      SplitJoin(parts[1..]);
      var tail := Join(parts[1..]);
      var rest := [','] + tail;
      assert Join(parts) == parts[0] + rest;
      assert rest[1..] == tail;
      assert Split(rest) == [[]] + parts[1..];
      SplitPart(parts[0], rest);
      assert parts[0] + [] == parts[0];
      assert Split(Join(parts)) == [parts[0]] + parts[1..];
      assert [parts[0]] + parts[1..] == parts;
    }
  }

  /** A comma-free prefix joins the first part. */
  lemma {:induction false} SplitPart(p: string, rest: string)
    requires ',' !in p
    requires rest == [] || rest[0] == ','
    ensures Split(p + rest) == [p + Split(rest)[0]] + Split(rest)[1..]
  {
    if p == [] {
      assert p + rest == rest;
      assert Split(rest) == [Split(rest)[0]] + Split(rest)[1..];
    } else {
      var q := p + rest;
      assert q[0] == p[0] && q[0] != ',';
      assert q[1..] == p[1..] + rest;
      SplitPart(p[1..], rest);
      var x := Split(rest);
      assert Split(q) == [[q[0]] + Split(q[1..])[0]] + Split(q[1..])[1..];
      assert [p[0]] + (p[1..] + x[0]) == p + x[0];
    }
  }

  /** envVarStringSplitter: the comma-separated parts of s, each trimmed of
      spaces, in order. */
  method StringSplitter(s: string) returns (v: seq<string>)
    ensures |v| == Commas(s) + 1
    ensures forall i | 0 <= i < |v| :: v[i] == TrimSpace(Split(s)[i])
  {
    var parts := Split(s);
    v := [];
    for i := 0 to |parts|
      invariant |v| == i
      invariant forall k | 0 <= k < i :: v[k] == TrimSpace(parts[k])
    {
      v := v + [TrimSpace(parts[i])];
    }
  }

  /** The parts of a comma-separated value, each trimmed. */
  function Parts(s: string): seq<string>
  {
    seq(Commas(s) + 1, i requires 0 <= i < Commas(s) + 1 => TrimSpace(Split(s)[i]))
  }

  /** The empty value is one empty part. */
  lemma EmptyValueOnePart()
    ensures Parts("") == [""]
  {
    assert Split("") == [""];
  }

  /** No part has a space at either end, and none holds a comma. */
  lemma PartsTrimmed(s: string)
    ensures forall i | 0 <= i < |Parts(s)| :: ',' !in Parts(s)[i]
    ensures forall i | 0 <= i < |Parts(s)| ::
              Parts(s)[i] == [] || (!IsSpace(Parts(s)[i][0]) && !IsSpace(Parts(s)[i][|Parts(s)[i]| - 1]))
  {
    forall i | 0 <= i < |Parts(s)|
      ensures ',' !in Parts(s)[i]
      ensures Parts(s)[i] == [] || (!IsSpace(Parts(s)[i][0]) && !IsSpace(Parts(s)[i][|Parts(s)[i]| - 1]))
    {
      SplitCommaFree(s);
      var p := Split(s)[i];
      TrimShape(p, IsSpace);
      var n := LeadCount(p, IsSpace);
      assert forall k | 0 <= k < |TrimSpace(p)| :: TrimSpace(p)[k] == p[n + k];
    }
  }

  // ---------------------------------------------------------------------------
  // Lists of values

  /** What envSliceTypeParser returns: the values of the parts before the
      first failing one, and that part's error if there is one. */
  datatype Parsed<T, E> = Parsed(values: seq<T>, error: Option<E>)

  /** The list parse as a recursion over the parts. */
  function ParseParts<T, E>(parts: seq<string>, f: string -> Result<T, E>): (p: Parsed<T, E>)
    ensures |p.values| <= |parts|
  {
    if parts == [] then Parsed([], None)
    else match f(parts[0])
      case Err(e) => Parsed([], Some(e))
      case Ok(x) =>
        var rest := ParseParts(parts[1..], f);
        Parsed([x] + rest.values, rest.error)
  }

  /** Every part parses: one value per part, in order, and no error. */
  lemma {:induction false} ParsePartsAllOk<T, E>(parts: seq<string>, f: string -> Result<T, E>)
    requires forall i | 0 <= i < |parts| :: f(parts[i]).Ok?
    ensures ParseParts(parts, f).error == None
    ensures |ParseParts(parts, f).values| == |parts|
    ensures forall i | 0 <= i < |parts| :: ParseParts(parts, f).values[i] == f(parts[i]).value
  {
    if parts != [] {
      ParsePartsAllOk(parts[1..], f);
    }
  }

  /** The first failing part stops the parse: its error comes back with
      exactly the values of the parts before it. */
  lemma {:induction false} ParsePartsStops<T, E>(parts: seq<string>, f: string -> Result<T, E>, k: nat)
    requires k < |parts| && f(parts[k]).Err?
    requires forall i | 0 <= i < k :: f(parts[i]).Ok?
    ensures ParseParts(parts, f).error == Some(f(parts[k]).error)
    ensures |ParseParts(parts, f).values| == k
    ensures forall i | 0 <= i < k :: ParseParts(parts, f).values[i] == f(parts[i]).value
  {
    if k > 0 {
      ParsePartsStops(parts[1..], f, k - 1);
    }
  }

  /** The values parsed before part i, followed by the parse of the parts
      from i on, make up the whole list parse. */
  ghost predicate ParsedUpTo<T, E>(parts: seq<string>, f: string -> Result<T, E>, i: nat, v: seq<T>)
    requires i <= |parts|
  {
    && ParseParts(parts, f).values == v + ParseParts(parts[i..], f).values
    && ParseParts(parts, f).error == ParseParts(parts[i..], f).error
  }

  lemma ParsedNone<T, E>(parts: seq<string>, f: string -> Result<T, E>)
    ensures ParsedUpTo(parts, f, 0, [])
  {
    assert parts[0..] == parts;
  }

  /** A parsed part i moves its value to the front of the rest. */
  lemma ParsedOk<T, E>(parts: seq<string>, f: string -> Result<T, E>, i: nat, v: seq<T>)
    requires i < |parts| && ParsedUpTo(parts, f, i, v) && f(parts[i]).Ok?
    ensures ParsedUpTo(parts, f, i + 1, v + [f(parts[i]).value])
  {
    var rest := ParseParts(parts[i + 1..], f);
    assert parts[i..][0] == parts[i] && parts[i..][1..] == parts[i + 1..];
    assert v + ([f(parts[i]).value] + rest.values) == (v + [f(parts[i]).value]) + rest.values;
  }

  /** A failing part i ends the list parse with the values before it. */
  lemma ParsedErr<T, E>(parts: seq<string>, f: string -> Result<T, E>, i: nat, v: seq<T>)
    requires i < |parts| && ParsedUpTo(parts, f, i, v) && f(parts[i]).Err?
    ensures ParseParts(parts, f) == Parsed(v, Some(f(parts[i]).error))
  {
    assert parts[i..][0] == parts[i];
    assert v + [] == v;
  }

  /** Once every part is parsed, the list parse is the values and no error. */
  lemma ParsedAll<T, E>(parts: seq<string>, f: string -> Result<T, E>, v: seq<T>)
    requires ParsedUpTo(parts, f, |parts|, v)
    ensures ParseParts(parts, f) == Parsed(v, None)
  {
    assert parts[|parts|..] == [];
    assert v + [] == v;
  }

  /** The splitter's parts are the trimmed comma-separated parts. */
  lemma SplitterParts(s: string, v: seq<string>)
    requires |v| == Commas(s) + 1
    requires forall i | 0 <= i < |v| :: v[i] == TrimSpace(Split(s)[i])
    ensures v == Parts(s)
  {
  }

  /** envSliceTypeParser: parses the parts in order, stopping at the first
      error. */
  method SliceTypeParser<T, E>(s: string, f: string -> Result<T, E>) returns (v: seq<T>, err: Option<E>)
    ensures Parsed(v, err) == ParseParts(Parts(s), f)
  {
    var parts := StringSplitter(s);
    SplitterParts(s, parts);
    v, err := [], None;
    ParsedNone(parts, f);
    var i := 0;
    while i < |parts|
      invariant 0 <= i <= |parts|
      invariant ParsedUpTo(parts, f, i, v)
    {
      var r := f(parts[i]);
      if r.Err? {
        ParsedErr(parts, f, i, v);
        err := Some(r.error);
        return;
      }
      ParsedOk(parts, f, i, v);
      v := v + [r.value];
      i := i + 1;
    }
    ParsedAll(parts, f, v);
  }

  /** The list parser a ParseStringAs case hands over, built on the parser
      of one element. */
  function SliceParser<T, E>(f: string -> Result<T, E>): string -> Result<seq<T>, E>
  {
    s =>
      var p := ParseParts(Parts(s), f);
      if p.error.None? then Ok(p.values) else Err(p.error.value)
  }

  // ---------------------------------------------------------------------------
  // ParseStringAs

  /** The types ParseStringAs accepts. */
  datatype Kind =
    | StringKind | StringsKind | IntKind | IntsKind | Int64Kind | Int64sKind
    | BoolKind | FloatKind | DurationKind | DurationsKind | DurationMapKind
    | DecimalKind | DecimalsKind | TimeKind

  /** Whether the type switch has a case for the kind: the map of durations
      is accepted by the type constraint but has none. */
  predicate HasCase(kind: Kind)
  {
    kind != DurationMapKind
  }

  /** ParseStringAs: the value with all surrounding quotes removed is parsed
      by the parser of its kind, and def is returned when that fails. None
      stands for the panic of a kind without a case. */
  function ParseStringAs<T, E>(kind: Kind, v: string, def: T, parse: string -> Result<T, E>): (r: Option<T>)
    ensures r.None? <==> !HasCase(kind)
  {
    if !HasCase(kind) then None
    else
      var s := TrimQuotes(v);
      match parse(s)
      case Err(_) => Some(def)
      case Ok(x) => Some(x)
  }

  /** A failing parse gives the default. */
  lemma ParseFailureGivesDefault<T, E>(kind: Kind, v: string, def: T, parse: string -> Result<T, E>)
    requires HasCase(kind) && parse(TrimQuotes(v)).Err?
    ensures ParseStringAs(kind, v, def, parse) == Some(def)
  {
  }

  /** A quoted value is parsed like the bare one. */
  lemma QuotedLikeBare<T, E>(kind: Kind, v: string, def: T, parse: string -> Result<T, E>)
    ensures ParseStringAs(kind, "\"" + v + "\"", def, parse) == ParseStringAs(kind, v, def, parse)
  {
    TrimPadded(v, IsQuote, '"');
  }

  /** The parser of the string cases: every text parses as itself. */
  function Identity(s: string): Result<string, string>
  {
    Ok(s)
  }

  /** The string case returns the value without its surrounding quotes, which
      has none left at either end. */
  lemma StringCase(v: string, def: string)
    ensures ParseStringAs(StringKind, v, def, Identity) == Some(TrimQuotes(v))
    ensures TrimQuotes(v) == [] || (TrimQuotes(v)[0] != '"' && TrimQuotes(v)[|TrimQuotes(v)| - 1] != '"')
  {
    TrimShape(v, IsQuote);
  }

  /** The list parser over the identity gives the parts themselves. */
  lemma SliceParserIdentity(s: string)
    ensures SliceParser(Identity)(s) == Ok(Parts(s))
  {
    var parts := Parts(s);
    ParsePartsAllOk(parts, Identity);
    assert ParseParts(parts, Identity).values == parts;
  }

  /** The string-list case splits and trims the unquoted value. */
  lemma StringsCase(v: string, def: seq<string>)
    ensures ParseStringAs(StringsKind, v, def, SliceParser(Identity)) == Some(Parts(TrimQuotes(v)))
  {
    SliceParserIdentity(TrimQuotes(v));
  }

  // ---------------------------------------------------------------------------
  // Loosely typed values

  /** The dynamic types ParseString and ParseInt64 look at; Other is any
      other type. */
  datatype Any =
    | Nil
    | Str(text: string)
    | Bytes(bytes: seq<Byte>)
    | Int(i: int)
    | Int64(i: int)
    | Float32(f: real)
    | Float64(f: real)
    | Bool(flag: bool)
    | Other

  /** string([]byte) for bytes below 128; higher bytes are read as the
      character of the same code, not decoded as UTF-8. */
  function BytesText(b: seq<Byte>): (s: string)
    ensures |s| == |b|
    ensures forall i | 0 <= i < |b| :: s[i] as int == b[i]
  {
    seq(|b|, i requires 0 <= i < |b| => b[i] as char)
  }

  function Digit(d: nat): char
    requires d < 10
  {
    "0123456789"[d]
  }

  /** A string of decimal digits and its value. */
  predicate AllDigits(s: string)
  {
    forall i | 0 <= i < |s| :: '0' <= s[i] <= '9'
  }

  function DigitsValue(s: string): nat
    requires AllDigits(s)
  {
    if s == [] then 0 else 10 * DigitsValue(s[..|s| - 1]) + (s[|s| - 1] as int - '0' as int)
  }

  /** The decimal digits of n, without leading zeros. */
  function NatDigits(n: nat): (s: string)
    ensures |s| > 0 && AllDigits(s) && DigitsValue(s) == n
    ensures |s| > 1 ==> s[0] != '0'
  {
    var last := [Digit(n % 10)];
    if n < 10 then last
    else
      var front := NatDigits(n / 10);
      var s := front + last;
      assert s[..|s| - 1] == front;
      s
  }

  /** fmt.Sprintf("%d", i). */
  function FormatInt(i: int): string
  {
    if i < 0 then "-" + NatDigits(-i) else NatDigits(i)
  }

  /** The decimal text has a sign exactly for negative numbers, followed by
      the digits of the magnitude without leading zeros. */
  lemma FormatIntShape(i: int)
    ensures |FormatInt(i)| > 0
    ensures FormatInt(i)[0] == '-' <==> i < 0
    ensures var d := if i < 0 then FormatInt(i)[1..] else FormatInt(i);
            |d| > 0 && AllDigits(d) && DigitsValue(d) == (if i < 0 then -i else i) && (|d| > 1 ==> d[0] != '0')
  {
    if i < 0 {
      assert FormatInt(i)[1..] == NatDigits(-i);
    }
  }

  /** ParseString: text kept as it is, numbers and booleans formatted, and
      "" for nil and for any other type. */
  function ParseString(src: Any, formatFloat: real -> string): (r: string)
    ensures src.Nil? || src.Other? ==> r == ""
    ensures src.Str? ==> r == src.text
  {
    match src
    case Nil => ""
    case Str(v) => v
    case Bytes(b) => BytesText(b)
    case Int(v) => FormatInt(v)
    case Int64(v) => FormatInt(v)
    case Float64(v) => formatFloat(v)
    case Bool(b) => if b then "true" else "false"
    case Float32(_) => ""
    case Other => ""
  }

  /** A boolean is written as Go writes it. */
  lemma ParseStringBool(b: bool, formatFloat: real -> string)
    ensures ParseString(Bool(b), formatFloat) == (if b then "true" else "false")
    ensures ParseString(Bool(b), formatFloat) != ""
  {
  }

  /** The result of strconv.ParseInt(s, 10, 64): the value it returns (0 on
      a syntax error, the nearest bound on overflow) and whether it failed. */
  datatype IntParse = IntParse(value: int, failed: bool)

  /** ParseInt64: integers kept, floats truncated, text parsed in base 10.
      Unparsable bytes give 0, while unparsable text gives whatever the
      parser returned with its error; other types give 0. */
  function ParseInt64(m: Any, parseInt: string -> IntParse): (r: int)
    ensures m.Nil? || m.Other? || m.Bool? ==> r == 0
    ensures m.Bytes? && parseInt(BytesText(m.bytes)).failed ==> r == 0
  {
    match m
    case Int(v) => v
    case Int64(v) => v
    case Bytes(b) =>
      var p := parseInt(BytesText(b));
      if p.failed then 0 else p.value
    case Str(s) => parseInt(s).value
    case Float32(f) => ToInt64(f)
    case Float64(f) => ToInt64(f)
    case _ => 0
  }

  /** Bytes and text holding the same characters are read alike exactly when
      the parse succeeds or returns 0 with its error. */
  lemma {:induction false} BytesLikeText(b: seq<Byte>, parseInt: string -> IntParse)
    ensures ParseInt64(Bytes(b), parseInt) == ParseInt64(Str(BytesText(b)), parseInt) <==>
            (!parseInt(BytesText(b)).failed || parseInt(BytesText(b)).value == 0)
  {
  }

  /** A float is truncated toward zero when it is within the int64 range. */
  lemma ParseInt64Float(f: real, parseInt: string -> IntParse)
    requires MinInt64 as real <= f < MaxInt64 as real + 1.0
    ensures ParseInt64(Float64(f), parseInt) == Trunc(f)
    ensures ParseInt64(Float32(f), parseInt) == Trunc(f)
  {
  }

  // ---------------------------------------------------------------------------
  // RandomString

  predicate IsHex(c: char)
  {
    '0' <= c <= '9' || 'a' <= c <= 'f'
  }

  /** The 32 hexadecimal digits of a version-4 uuid. */
  type UuidDigits = s: string | |s| == 32 && forall i | 0 <= i < |s| :: IsHex(s[i])
    witness "00000000000000000000000000000000"

  /** uuid.NewString: the digits in groups of 8, 4, 4, 4 and 12 joined by
      dashes. */
  function FormatUuid(u: UuidDigits): string
  {
    u[..8] + "-" + u[8..12] + "-" + u[12..16] + "-" + u[16..20] + "-" + u[20..]
  }

  /** strings.ReplaceAll(s, "-", ""). */
  function RemoveDashes(s: string): (r: string)
    ensures |r| <= |s|
    ensures forall i | 0 <= i < |r| :: r[i] != '-'
  {
    if s == [] then []
    else if s[|s| - 1] == '-' then RemoveDashes(s[..|s| - 1])
    else RemoveDashes(s[..|s| - 1]) + [s[|s| - 1]]
  }

  lemma {:induction false} RemoveDashesAppend(a: string, b: string)
    ensures RemoveDashes(a + b) == RemoveDashes(a) + RemoveDashes(b)
    decreases |b|
  {
    if b != [] {
      assert (a + b)[..|a + b| - 1] == a + b[..|b| - 1];
      RemoveDashesAppend(a, b[..|b| - 1]);
    } else {
      assert a + b == a;
    }
  }

  lemma {:induction false} RemoveDashesNone(s: string)
    requires forall i | 0 <= i < |s| :: IsHex(s[i])
    ensures RemoveDashes(s) == s
  {
    if s != [] {
      RemoveDashesNone(s[..|s| - 1]);
    }
  }

  /** Removing the dashes of a formatted uuid gives back its 32 digits. */
  lemma UuidUndashed(u: UuidDigits)
    ensures RemoveDashes(FormatUuid(u)) == u
  {
    var a, b, c, d, e := u[..8], u[8..12], u[12..16], u[16..20], u[20..];
    assert u == a + b + c + d + e;
    RemoveDashesNone(a);
    RemoveDashesNone(b);
    RemoveDashesNone(c);
    RemoveDashesNone(d);
    RemoveDashesNone(e);
    assert RemoveDashes("-") == [];
    RemoveDashesAppend(a + "-" + b + "-" + c + "-" + d + "-", e);
    RemoveDashesAppend(a + "-" + b + "-" + c + "-" + d, "-");
    RemoveDashesAppend(a + "-" + b + "-" + c + "-", d);
    RemoveDashesAppend(a + "-" + b + "-" + c, "-");
    RemoveDashesAppend(a + "-" + b + "-", c);
    RemoveDashesAppend(a + "-" + b, "-");
    RemoveDashesAppend(a + "-", b);
    RemoveDashesAppend(a, "-");
  }

  /** The digits of the first n uuids drawn, in order. */
  function Drawn(uuids: nat -> UuidDigits, n: nat): (s: string)
    ensures |s| == 32 * n
    ensures forall i | 0 <= i < |s| :: IsHex(s[i])
  {
    if n == 0 then [] else Drawn(uuids, n - 1) + uuids(n - 1)
  }

  /** RandomString: draws uuids until their digits reach length l and keeps
      the first l; the i-th call of uuid.NewString produces uuids(i). None
      stands for the panic of slicing to a negative length. */
  method RandomString(l: int, uuids: nat -> UuidDigits) returns (r: Option<string>)
    ensures l < 0 <==> r.None?
    ensures r.Some? ==> |r.value| == l && r.value == Drawn(uuids, (l + 31) / 32)[..l]
    ensures r.Some? ==> forall i | 0 <= i < |r.value| :: IsHex(r.value[i])
  {
    UuidUndashed(uuids(0));
    var s := RemoveDashes(FormatUuid(uuids(0)));
    var n: nat := 1;
    assert s == Drawn(uuids, 1);
    while |s| < l
      invariant s == Drawn(uuids, n) && n >= 1
      invariant n == 1 || 32 * (n - 1) < l
      decreases l - |s|
    {
      UuidUndashed(uuids(n));
      var t := RemoveDashes(FormatUuid(uuids(n)));
      s := s + t;
      n := n + 1;
    }
    if l < 0 {
      return None;
    }
    if l > 0 {
      assert n == (l + 31) / 32 || 32 * n >= l + 32;
      PrefixDrawn(uuids, (l + 31) / 32, n);
    }
    r := Some(s[..l]);
  }

  /** Drawing more keeps the earlier digits. */
  lemma {:induction false} PrefixDrawn(uuids: nat -> UuidDigits, m: nat, n: nat)
    requires m <= n
    ensures Drawn(uuids, n)[..32 * m] == Drawn(uuids, m)
    decreases n - m
  {
    if m < n {
      PrefixDrawn(uuids, m, n - 1);
      assert Drawn(uuids, n)[..32 * (n - 1)] == Drawn(uuids, n - 1);
    }
  }
}
