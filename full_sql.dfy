/** FullSqlExecutionTimeInterceptor: a MyBatis StatementHandler interceptor that times each
    statement and, in a finally block, rebuilds a literal SQL text from the statement's
    template and parameter mappings for the log. */
module FullSql {
  import opened Java

  datatype ParameterMapping = ParameterMapping(property: string)

  /** What the interceptor reads from MyBatis's BoundSql. Reflection on the parameter object
      is replaced by two views of it: the fields its class declares (getDeclaredField) and the
      properties a MetaObject can read; a name missing from a view is a failed lookup. */
  datatype BoundSql = BoundSql(
    sql: string,
    mappings: seq<ParameterMapping>,
    parameterObject: JObject,
    additional: map<string, JObject>,
    declaredFields: map<string, JObject>,
    metaProperties: map<string, JObject>)

  /** How the last resolution step reads a property: the instance getRealSql uses
      getDeclaredField, the static one MetaObject.getValue. */
  datatype Access = DeclaredField | MetaProperty

  /** The properties the last resolution step can read, by the access it uses. */
  function PropertyView(b: BoundSql, access: Access): map<string, JObject>
  {
    match access
    case DeclaredField => b.declaredFields
    case MetaProperty => b.metaProperties
  }

  /** One parameter's value, by the four-step priority: an additional parameter registered
      under the property; null when there is no parameter object; the parameter object itself
      when the TypeHandlerRegistry (the set of class names `registry`) handles its class;
      otherwise the named property of the parameter object. */
  function ResolveValue(b: BoundSql, registry: set<string>, property: string, access: Access): (r: Outcome<JObject>)
    ensures property in b.additional ==> r == Returned(b.additional[property])
    ensures property !in b.additional && b.parameterObject.Null? ==> r == Returned(Null)
    ensures property !in b.additional && !b.parameterObject.Null? && b.parameterObject.ClassName() in registry ==>
              r == Returned(b.parameterObject)
    ensures property !in b.additional && !b.parameterObject.Null? && b.parameterObject.ClassName() !in registry ==>
              && (r.Returned? <==> property in PropertyView(b, access))
              && (r.Returned? ==> r.value == PropertyView(b, access)[property])
    ensures r.Threw? ==> property !in b.additional && !b.parameterObject.Null?
                         && b.parameterObject.ClassName() !in registry
  {
    if property in b.additional then Returned(b.additional[property])
    else if b.parameterObject.Null? then Returned(Null)
    else if b.parameterObject.ClassName() in registry then Returned(b.parameterObject)
    else match access
      case DeclaredField =>
        if property in b.declaredFields then Returned(b.declaredFields[property])
        else Threw(NoSuchField(property))
      case MetaProperty =>
        if property in b.metaProperties then Returned(b.metaProperties[property])
        else Threw(Reflection("There is no getter for property named '" + property + "'"))
  }

  /** formatParameter: Java null for null, strings and characters single-quoted verbatim,
      dates quoted in their SimpleDateFormat text, anything else its toString unquoted. */
  function FormatParameter(v: JObject): (r: Option<string>)
    ensures r.None? <==> v.Null?
    ensures v.Str? || v.Chr? || v.Date? ==>
              && |r.value| >= 2 && r.value[0] == '\'' && r.value[|r.value| - 1] == '\''
              && r.value[1..|r.value| - 1] == (if v.Date? then v.formatted else v.ToString())
    ensures !v.Null? && !v.Str? && !v.Chr? && !v.Date? ==> r == Some(v.ToString())
  {
    if v.Null? then None
    else if v.Str? || v.Chr? then Some("'" + v.ToString() + "'")
    else if v.Date? then Some("'" + v.formatted + "'")
    else Some(v.ToString())
  }

  // ---------------------------------------------------------------- the instance getRealSql

  /** The instance getRealSql from the current text `sql` on: per mapping, resolve its value
      and replace the leftmost '?' of the current text by its rendering; the first exception
      ends the walk. */
  function RealSqlFrom(b: BoundSql, registry: set<string>, sql: string, ms: seq<ParameterMapping>): Outcome<string>
    decreases |ms|
  {
    if ms == [] then Returned(sql)
    else match ResolveValue(b, registry, ms[0].property, DeclaredField)
      case Threw(e) => Threw(e)
      case Returned(v) =>
        match ReplaceFirstPlaceholder(sql, FormatParameter(v))
        case Threw(e) => Threw(e)
        case Returned(next) => RealSqlFrom(b, registry, next, ms[1..])
  }

  function RealSql(b: BoundSql, registry: set<string>): Outcome<string>
  {
    RealSqlFrom(b, registry, b.sql, b.mappings)
  }

  /** The instance getRealSql, with its loop over the parameter mappings. */
  method GetRealSql(registry: set<string>, b: BoundSql) returns (r: Outcome<string>)
    ensures r == RealSql(b, registry)
    ensures b.mappings == [] ==> r == Returned(b.sql)
  {
    var sql := b.sql;
    if b.mappings != [] {
      var i := 0;
      while i < |b.mappings|
        invariant 0 <= i <= |b.mappings|
        invariant RealSqlFrom(b, registry, sql, b.mappings[i..]) == RealSql(b, registry)
      {
        var value := ResolveValue(b, registry, b.mappings[i].property, DeclaredField);
        if value.Threw? {
          return Threw(value.exc);
        }
        var replaced := ReplaceFirstPlaceholder(sql, FormatParameter(value.value));
        if replaced.Threw? {
          return Threw(replaced.exc);
        }
        assert b.mappings[i..][1..] == b.mappings[i + 1..];
        sql := replaced.value;
        i := i + 1;
      }
    }
    return Returned(sql);
  }

  // ---------------------------------------------------------------- intercept

  datatype StatementInvocation = StatementInvocation(methodName: string, mapperId: string, boundSql: BoundSql)

  /** The one line logged per invocation, on the logger named after the mapper id. */
  datatype TimingLog = TimingLog(logger: string, methodName: string, duration: int, sql: string)

  /** intercept: `proceeded` is how invocation.proceed() completed, `startTime` and `endTime`
      the clock readings taken just before it and in the finally block. The finally block runs
      on both exits; an exception it raises replaces proceed's result or exception. */
  method Intercept(inv: StatementInvocation, registry: set<string>, startTime: int, proceeded: Outcome<JObject>, endTime: int)
    returns (outcome: Outcome<JObject>, logged: seq<TimingLog>)
    ensures RealSql(inv.boundSql, registry).Returned? ==>
      && outcome == proceeded
      && logged == [TimingLog(inv.mapperId, inv.methodName, endTime - startTime, RealSql(inv.boundSql, registry).value)]
    ensures RealSql(inv.boundSql, registry).Threw? ==>
      outcome == Threw(RealSql(inv.boundSql, registry).exc) && logged == []
  {
    // try { return invocation.proceed(); } finally { ... }
    var executionTime := endTime - startTime;
    var sql := GetRealSql(registry, inv.boundSql);
    if sql.Threw? {
      return Threw(sql.exc), [];
    }
    logged := [TimingLog(inv.mapperId, inv.methodName, executionTime, sql.value)];
    outcome := proceeded;
  }

  // ---------------------------------------------------------------- what getRealSql computes

  /** The renderings of the mappings' values, when every value resolves and none is null. */
  function RenderAll(b: BoundSql, registry: set<string>, ms: seq<ParameterMapping>): (r: Option<seq<string>>)
    ensures r.Some? ==> |r.value| == |ms|
    decreases |ms|
  {
    if ms == [] then Some([])
    else match ResolveValue(b, registry, ms[0].property, DeclaredField)
      case Threw(_) => None
      case Returned(v) =>
        match FormatParameter(v)
        case None => None
        case Some(t) =>
          match RenderAll(b, registry, ms[1..])
          case None => None
          case Some(ts) => Some([t] + ts)
  }

  /** A rendering that replaceFirst inserts literally and that holds no placeholder. */
  predicate Plain(t: string)
  {
    '?' !in t && LiteralReplacement(t)
  }

  /** The substitution the log line is meant to show: the i-th value fills the i-th '?' of
      the template; surplus values are dropped and surplus placeholders stay. */
  function Fill(sql: string, vals: seq<string>): string
    decreases |vals|
  {
    if vals == [] then sql
    else match IndexOf(sql, '?')
      case None => sql
      case Some(i) => sql[..i] + vals[0] + Fill(sql[i + 1..], vals[1..])
  }

  lemma IndexOfAt(s: string, c: char, i: nat)
    requires i < |s| && s[i] == c && c !in s[..i]
    ensures IndexOf(s, c) == Some(i)
  {
    assert c in s by { assert s[i] == c; }
  }

  /** Behind a prefix without c, the leftmost c moves by the prefix's length. */
  lemma IndexOfAfterPrefix(p: string, s: string, c: char)
    requires c !in p
    ensures IndexOf(p + s, c) == match IndexOf(s, c) case None => None case Some(j) => Some(|p| + j)
  {
    var q := p + s;
    match IndexOf(s, c)
    case None =>
      assert c !in q;
    case Some(j) =>
      assert q[|p| + j] == s[j];
      assert q[..|p| + j] == p + s[..j];
      IndexOfAt(q, c, |p| + j);
  }

  lemma FillUnfold(sql: string, vals: seq<string>, i: nat)
    requires vals != [] && IndexOf(sql, '?') == Some(i)
    ensures Fill(sql, vals) == sql[..i] + vals[0] + Fill(sql[i + 1..], vals[1..])
  {
  }

  lemma SliceShift(p: string, s: string, j: nat)
    requires j < |s|
    ensures (p + s)[..|p| + j] == p + s[..j] && (p + s)[|p| + j + 1..] == s[j + 1..]
  {
  }

  lemma FillShiftLeft(p: string, s: string, vals: seq<string>, j: nat)
    requires vals != [] && j < |s| && IndexOf(p + s, '?') == Some(|p| + j)
    ensures Fill(p + s, vals) == (p + s[..j]) + vals[0] + Fill(s[j + 1..], vals[1..])
  {
    FillUnfold(p + s, vals, |p| + j);
    SliceShift(p, s, j);
  }

  lemma AssocStep(p: string, a: string, v: string, r: string)
    ensures (p + a) + v + r == p + (a + v + r)
  {
  }

  lemma FillAtShift(p: string, s: string, vals: seq<string>, j: nat)
    requires vals != [] && j < |s|
    requires IndexOf(p + s, '?') == Some(|p| + j) && IndexOf(s, '?') == Some(j)
    ensures Fill(p + s, vals) == p + Fill(s, vals)
  {
    FillShiftLeft(p, s, vals, j);
    FillUnfold(s, vals, j);
    AssocStep(p, s[..j], vals[0], Fill(s[j + 1..], vals[1..]));
  }

  /** A prefix without placeholders passes through the substitution untouched. */
  lemma FillPrefix(p: string, s: string, vals: seq<string>)
    requires '?' !in p
    ensures Fill(p + s, vals) == p + Fill(s, vals)
  {
    if vals != [] {
      IndexOfAfterPrefix(p, s, '?');
      if IndexOf(s, '?').Some? {
        FillAtShift(p, s, vals, IndexOf(s, '?').value);
      }
    }
  }

  /** The text after one placeholder-free rendering t has replaced the first '?' of sql. */
  function ReplacedOnce(sql: string, t: string): string
  {
    match IndexOf(sql, '?')
    case None => sql
    case Some(i) => sql[..i] + t + sql[i + 1..]
  }

  /** One step of the instance loop with a literal, resolvable rendering. */
  lemma RealSqlFromStep(b: BoundSql, registry: set<string>, sql: string, ms: seq<ParameterMapping>, ts: seq<string>)
    requires ms != [] && RenderAll(b, registry, ms) == Some(ts) && Plain(ts[0])
    ensures RealSqlFrom(b, registry, sql, ms) == RealSqlFrom(b, registry, ReplacedOnce(sql, ts[0]), ms[1..])
    ensures RenderAll(b, registry, ms[1..]) == Some(ts[1..])
  {
    ReplaceFirstLiteral(sql, ts[0]);
  }

  /** Without a '?', Fill leaves the text alone. */
  lemma FillNone(sql: string, vals: seq<string>)
    requires IndexOf(sql, '?').None?
    ensures Fill(sql, vals) == sql
  {
  }

  /** When no rendering holds a '?', '$' or '\', the instance getRealSql is the intended
      substitution Fill of the renderings into the template. */
  lemma {:induction false} RealSqlFromIsFill(b: BoundSql, registry: set<string>, sql: string, ms: seq<ParameterMapping>, ts: seq<string>)
    requires RenderAll(b, registry, ms) == Some(ts)
    requires forall k :: 0 <= k < |ts| ==> Plain(ts[k])
    ensures RealSqlFrom(b, registry, sql, ms) == Returned(Fill(sql, ts))
    decreases |ms|
  {
    if ms != [] {
      assert Plain(ts[0]);
      RealSqlFromStep(b, registry, sql, ms, ts);
      var next := ReplacedOnce(sql, ts[0]);
      RealSqlFromIsFill(b, registry, next, ms[1..], ts[1..]);
      match IndexOf(sql, '?')
      case None =>
        FillNone(sql, ts);
        FillNone(sql, ts[1..]);
      case Some(i) =>
        FillUnfold(sql, ts, i);
        FillPrefix(sql[..i] + ts[0], sql[i + 1..], ts[1..]);
    }
  }

  lemma RealSqlIsFill(b: BoundSql, registry: set<string>, ts: seq<string>)
    requires RenderAll(b, registry, b.mappings) == Some(ts)
    requires forall k :: 0 <= k < |ts| ==> Plain(ts[k])
    ensures RealSql(b, registry) == Returned(Fill(b.sql, ts))
  {
    RealSqlFromIsFill(b, registry, b.sql, b.mappings, ts);
  }

  function Placeholders(s: string): nat
  {
    multiset(s)['?']
  }

  /** Each value fills one placeholder until none is left: the result holds
      max(0, placeholders - values) placeholders. */
  lemma {:induction false} FillLeavesSurplus(sql: string, vals: seq<string>)
    requires forall k :: 0 <= k < |vals| ==> '?' !in vals[k]
    ensures Placeholders(Fill(sql, vals)) ==
      if |vals| >= Placeholders(sql) then 0 else Placeholders(sql) - |vals|
    decreases |vals|
  {
    if vals != [] {
      match IndexOf(sql, '?')
      case None =>
        assert '?' !in multiset(sql);
      case Some(i) =>
        assert sql == sql[..i] + ['?'] + sql[i + 1..];
        assert multiset(sql) == multiset(sql[..i]) + multiset(['?']) + multiset(sql[i + 1..]);
        assert '?' !in multiset(sql[..i]);
        assert '?' !in multiset(vals[0]);
        FillLeavesSurplus(sql[i + 1..], vals[1..]);
        calc {
          Placeholders(Fill(sql, vals));
          multiset(sql[..i] + vals[0] + Fill(sql[i + 1..], vals[1..]))['?'];
          Placeholders(Fill(sql[i + 1..], vals[1..]));
        }
    }
  }

  /** Mappings and placeholders may disagree in count: with placeholder-free renderings the
      reconstructed text keeps max(0, placeholders - mappings) placeholders. */
  lemma RealSqlSurplusPlaceholders(b: BoundSql, registry: set<string>, ts: seq<string>)
    requires RenderAll(b, registry, b.mappings) == Some(ts)
    requires forall k :: 0 <= k < |ts| ==> Plain(ts[k])
    ensures RealSql(b, registry).Returned?
    ensures Placeholders(RealSql(b, registry).value) ==
      if |b.mappings| >= Placeholders(b.sql) then 0 else Placeholders(b.sql) - |b.mappings|
  {
    RealSqlIsFill(b, registry, ts);
    FillLeavesSurplus(b.sql, ts);
  }

  /** Once the text holds no '?', every further mapping leaves it unchanged, whatever its
      rendering, provided it resolves and is not null. */
  lemma {:induction false} NoPlaceholderLeft(b: BoundSql, registry: set<string>, sql: string, ms: seq<ParameterMapping>)
    requires '?' !in sql
    requires RenderAll(b, registry, ms).Some?
    ensures RealSqlFrom(b, registry, sql, ms) == Returned(sql)
    decreases |ms|
  {
    if ms != [] {
      NoPlaceholderLeft(b, registry, sql, ms[1..]);
    }
  }

  /** A null value reaches replaceFirst as a Java null replacement: with no parameter object
      and no additional parameters the first mapping throws NullPointerException. */
  lemma NullParameterObjectThrows(b: BoundSql, registry: set<string>)
    requires b.parameterObject.Null? && b.mappings != [] && b.mappings[0].property !in b.additional
    ensures RealSql(b, registry) == Threw(NullPointer("replacement"))
  {
  }

  /** Mappings before the k-th whose renderings are inserted literally, then a null value at
      the k-th: however the value came to be null (a null additional parameter, no parameter
      object, a null field), replaceFirst gets a Java null replacement and throws
      NullPointerException. */
  lemma {:induction false} NullValueThrowsFrom(b: BoundSql, registry: set<string>, sql: string,
                                               ms: seq<ParameterMapping>, k: nat, ts: seq<string>)
    requires k < |ms| && RenderAll(b, registry, ms[..k]) == Some(ts)
    requires forall j :: 0 <= j < |ts| ==> LiteralReplacement(ts[j])
    requires ResolveValue(b, registry, ms[k].property, DeclaredField) == Returned(Null)
    ensures RealSqlFrom(b, registry, sql, ms) == Threw(NullPointer("replacement"))
    decreases k
  {
    if k > 0 {
      var pre := ms[..k];
      assert pre[0] == ms[0] && pre[1..] == ms[1..][..k - 1];
      assert LiteralReplacement(ts[0]);
      ReplaceFirstLiteral(sql, ts[0]);
      var next := ReplacedOnce(sql, ts[0]);
      assert RealSqlFrom(b, registry, sql, ms) == RealSqlFrom(b, registry, next, ms[1..]);
      NullValueThrowsFrom(b, registry, next, ms[1..], k - 1, ts[1..]);
    }
  }

  /** A null value at any mapping makes the instance getRealSql throw NullPointerException,
      once the mappings before it have rendered without a '$' or '\'. */
  lemma NullValueThrows(b: BoundSql, registry: set<string>, k: nat, ts: seq<string>)
    requires k < |b.mappings| && RenderAll(b, registry, b.mappings[..k]) == Some(ts)
    requires forall j :: 0 <= j < |ts| ==> LiteralReplacement(ts[j])
    requires ResolveValue(b, registry, b.mappings[k].property, DeclaredField) == Returned(Null)
    ensures RealSql(b, registry) == Threw(NullPointer("replacement"))
  {
    NullValueThrowsFrom(b, registry, b.sql, b.mappings, k, ts);
  }

  /** A parameter object of a class the TypeHandlerRegistry handles is the value of every
      mapping without an additional parameter: each of them renders the same text. */
  lemma {:induction false} TypeHandledFillsEveryMapping(b: BoundSql, registry: set<string>,
                                                        ms: seq<ParameterMapping>, t: string)
    requires !b.parameterObject.Null? && b.parameterObject.ClassName() in registry
    requires FormatParameter(b.parameterObject) == Some(t)
    requires forall j :: 0 <= j < |ms| ==> ms[j].property !in b.additional
    ensures var r := RenderAll(b, registry, ms);
      r.Some? && |r.value| == |ms| && forall j :: 0 <= j < |ms| ==> r.value[j] == t
    decreases |ms|
  {
    if ms != [] {
      assert ResolveValue(b, registry, ms[0].property, DeclaredField) == Returned(b.parameterObject);
      TypeHandledFillsEveryMapping(b, registry, ms[1..], t);
      var rest := RenderAll(b, registry, ms[1..]).value;
      assert RenderAll(b, registry, ms) == Some([t] + rest);
    }
  }

  // ---------------------------------------------------------------- the static getRealSql

  /** The first loop of the static getRealSql: one value per mapping, in mapping order; the
      first failed lookup throws. */
  function CollectValues(b: BoundSql, registry: set<string>, ms: seq<ParameterMapping>): Outcome<seq<JObject>>
    decreases |ms|
  {
    if ms == [] then Returned([])
    else match CollectValues(b, registry, ms[..|ms| - 1])
      case Threw(e) => Threw(e)
      case Returned(vs) =>
        match ResolveValue(b, registry, ms[|ms| - 1].property, MetaProperty)
        case Threw(e) => Threw(e)
        case Returned(v) => Returned(vs + [v])
  }

  /** The static variant's rendering: null as the token null, anything else single-quoted. */
  function RenderStatic(v: JObject): string
  {
    if v.Null? then "null" else "'" + v.ToString() + "'"
  }

  /** The second loop of the static getRealSql. */
  function SubstituteStatic(sql: string, ps: seq<JObject>): Outcome<string>
    decreases |ps|
  {
    if ps == [] then Returned(sql)
    else match ReplaceFirstPlaceholder(sql, Some(RenderStatic(ps[0])))
      case Threw(e) => Threw(e)
      case Returned(next) => SubstituteStatic(next, ps[1..])
  }

  function StaticRealSql(b: BoundSql, registry: set<string>): Outcome<string>
  {
    match CollectValues(b, registry, b.mappings)
    case Threw(e) => Threw(e)
    case Returned(ps) => SubstituteStatic(b.sql, ps)
  }

  /** The static getRealSql(MappedStatement, Object): fill a `parameters` array, then rewrite
      the SQL text once per element. */
  method StaticGetRealSql(b: BoundSql, registry: set<string>) returns (r: Outcome<string>)
    ensures r == StaticRealSql(b, registry)
  {
    var sql := b.sql;
    var n := |b.mappings|;
    var parameters := new JObject[n];
    var i := 0;
    while i < n
      invariant 0 <= i <= n
      invariant CollectValues(b, registry, b.mappings[..i]) == Returned(parameters[..i])
    {
      var value := ResolveValue(b, registry, b.mappings[i].property, MetaProperty);
      assert b.mappings[..i + 1][..i] == b.mappings[..i];
      if value.Threw? {
        assert CollectValues(b, registry, b.mappings[..i + 1]).Threw?;
        CollectStopsAtFailure(b, registry, b.mappings, i + 1);
        return Threw(value.exc);
      }
      parameters[i] := value.value;
      assert parameters[..i + 1] == parameters[..i] + [value.value];
      i := i + 1;
    }
    assert b.mappings[..n] == b.mappings && parameters[..n] == parameters[..];
    ghost var ps := parameters[..];
    var j := 0;
    while j < n
      invariant 0 <= j <= n && parameters[..] == ps
      invariant SubstituteStatic(sql, ps[j..]) == SubstituteStatic(b.sql, ps)
    {
      var replaced := ReplaceFirstPlaceholder(sql, Some(RenderStatic(parameters[j])));
      SubstituteStaticStep(sql, ps, j);
      if replaced.Threw? {
        return Threw(replaced.exc);
      }
      sql := replaced.value;
      j := j + 1;
    }
    assert ps[n..] == [];
    return Returned(sql);
  }

  /** The static variant's rendering of each collected value, in order. */
  function StaticRenderings(ps: seq<JObject>): (ts: seq<string>)
    ensures |ts| == |ps|
    ensures forall k :: 0 <= k < |ps| ==> ts[k] == RenderStatic(ps[k])
  {
    seq(|ps|, k requires 0 <= k < |ps| => RenderStatic(ps[k]))
  }

  /** When no rendering holds a '?', '$' or '\', the second loop is the intended substitution
      Fill of the renderings into the template. */
  lemma {:induction false} SubstituteStaticIsFill(sql: string, ps: seq<JObject>)
    requires forall k :: 0 <= k < |ps| ==> Plain(RenderStatic(ps[k]))
    ensures SubstituteStatic(sql, ps) == Returned(Fill(sql, StaticRenderings(ps)))
    decreases |ps|
  {
    if ps != [] {
      var ts := StaticRenderings(ps);
      assert Plain(ts[0]);
      ReplaceFirstLiteral(sql, ts[0]);
      var next := ReplacedOnce(sql, ts[0]);
      assert SubstituteStatic(sql, ps) == SubstituteStatic(next, ps[1..]);
      assert StaticRenderings(ps[1..]) == ts[1..];
      SubstituteStaticIsFill(next, ps[1..]);
      match IndexOf(sql, '?')
      case None =>
        FillNone(sql, ts);
        FillNone(sql, ts[1..]);
      case Some(i) =>
        FillUnfold(sql, ts, i);
        FillPrefix(sql[..i] + ts[0], sql[i + 1..], ts[1..]);
    }
  }

  /** The static getRealSql, too, is the intended substitution: with renderings free of '?',
      '$' and '\', the k-th collected value, quoted, fills the k-th '?' of the template. */
  lemma StaticRealSqlIsFill(b: BoundSql, registry: set<string>, ps: seq<JObject>)
    requires CollectValues(b, registry, b.mappings) == Returned(ps)
    requires forall k :: 0 <= k < |ps| ==> Plain(RenderStatic(ps[k]))
    ensures StaticRealSql(b, registry) == Returned(Fill(b.sql, StaticRenderings(ps)))
  {
    SubstituteStaticIsFill(b.sql, ps);
  }

  /** One round of the second loop: the rewrite of the j-th value, then the rest. */
  lemma SubstituteStaticStep(sql: string, ps: seq<JObject>, j: nat)
    requires j < |ps|
    ensures var step := ReplaceFirstPlaceholder(sql, Some(RenderStatic(ps[j])));
      && (step.Threw? ==> SubstituteStatic(sql, ps[j..]) == Threw(step.exc))
      && (step.Returned? ==> SubstituteStatic(sql, ps[j..]) == SubstituteStatic(step.value, ps[j + 1..]))
  {
    assert ps[j..][0] == ps[j];
    assert ps[j..][1..] == ps[j + 1..];
  }

  /** A failed lookup on a prefix of the mappings is the failure of the whole walk. */
  lemma {:induction false} CollectStopsAtFailure(b: BoundSql, registry: set<string>, ms: seq<ParameterMapping>, i: nat)
    requires i <= |ms| && CollectValues(b, registry, ms[..i]).Threw?
    ensures CollectValues(b, registry, ms) == CollectValues(b, registry, ms[..i])
    decreases |ms| - i
  {
    if i < |ms| {
      assert ms[..i + 1][..i] == ms[..i];
      CollectStopsAtFailure(b, registry, ms, i + 1);
    } else {
      assert ms[..i] == ms;
    }
  }

  /** The static variant collects exactly one value per mapping, in mapping order. */
  lemma {:induction false} CollectOnePerMapping(b: BoundSql, registry: set<string>, ms: seq<ParameterMapping>)
    requires CollectValues(b, registry, ms).Returned?
    ensures |CollectValues(b, registry, ms).value| == |ms|
    ensures forall k :: 0 <= k < |ms| ==>
      ResolveValue(b, registry, ms[k].property, MetaProperty) == Returned(CollectValues(b, registry, ms).value[k])
    decreases |ms|
  {
    if ms != [] {
      var init := ms[..|ms| - 1];
      CollectOnePerMapping(b, registry, init);
      forall k | 0 <= k < |ms| - 1 ensures ms[k] == init[k] { }
    }
  }

  /** The static variant never throws NullPointerException: null is rendered as the token null. */
  lemma {:induction false} SubstituteStaticNoNullPointer(sql: string, ps: seq<JObject>)
    ensures SubstituteStatic(sql, ps).Threw? ==> !SubstituteStatic(sql, ps).exc.NullPointer?
    decreases |ps|
  {
    if ps != [] {
      match ReplaceFirstPlaceholder(sql, Some(RenderStatic(ps[0])))
      case Threw(e) =>
        ExpandNeverNullPointer(RenderStatic(ps[0]), "?");
      case Returned(next) =>
        SubstituteStaticNoNullPointer(next, ps[1..]);
    }
  }

  lemma {:induction false} ExpandNeverNullPointer(repl: string, group: string)
    ensures ExpandReplacement(repl, group).Threw? ==> !ExpandReplacement(repl, group).exc.NullPointer?
    decreases |repl|
  {
    if repl != [] {
      if repl[0] == '\\' && |repl| > 1 {
        ExpandNeverNullPointer(repl[2..], group);
      } else if repl[0] == '$' && |repl| > 1 && repl[1] == '0' {
        ExpandNeverNullPointer(DropLeadingZeros(repl[2..]), group);
      } else if repl[0] != '\\' && repl[0] != '$' {
        ExpandNeverNullPointer(repl[1..], group);
      }
    }
  }

  lemma StaticRealSqlNoNullPointer(b: BoundSql, registry: set<string>)
    ensures StaticRealSql(b, registry).Threw? ==> !StaticRealSql(b, registry).exc.NullPointer?
  {
    match CollectValues(b, registry, b.mappings)
    case Threw(e) =>
      CollectNeverNullPointer(b, registry, b.mappings);
    case Returned(ps) =>
      SubstituteStaticNoNullPointer(b.sql, ps);
  }

  lemma {:induction false} CollectNeverNullPointer(b: BoundSql, registry: set<string>, ms: seq<ParameterMapping>)
    ensures CollectValues(b, registry, ms).Threw? ==> !CollectValues(b, registry, ms).exc.NullPointer?
    decreases |ms|
  {
    if ms != [] {
      CollectNeverNullPointer(b, registry, ms[..|ms| - 1]);
    }
  }

  // ---------------------------------------------------------------- worked examples

  /** The first '?' of p + "?" + x is the one after p when p holds none. */
  lemma PlaceholderAfter(p: string, x: string)
    requires '?' !in p
    ensures IndexOf(p + "?" + x, '?') == Some(|p|)
    ensures (p + "?" + x)[..|p|] == p && (p + "?" + x)[|p| + 1..] == x
  {
    var s := p + "?" + x;
    assert s[..|p|] == p && s[|p| + 1..] == x;
    IndexOfAt(s, '?', |p|);
  }

  lemma ReplaceAfter(p: string, x: string, t: string)
    requires '?' !in p && LiteralReplacement(t)
    ensures ReplaceFirstPlaceholder(p + "?" + x, Some(t)) == Returned(p + t + x)
  {
    PlaceholderAfter(p, x);
    ReplaceFirstLiteral(p + "?" + x, t);
  }

  lemma FillAfter(p: string, x: string, vals: seq<string>)
    requires '?' !in p && vals != []
    ensures Fill(p + "?" + x, vals) == p + vals[0] + Fill(x, vals[1..])
  {
    PlaceholderAfter(p, x);
  }

  const ExampleHead: string := "SELECT * FROM t WHERE id = "
  const ExampleMid: string := " AND name = "

  /** SELECT * FROM t WHERE id = ? AND name = ? */
  const ExampleTemplate: string := ExampleHead + "?" + ExampleMid + "?"

  /** A bean parameter whose class has no type handler, with fields id = 42 and name = "Alice". */
  function ExampleBound(): BoundSql
  {
    var fields := map["id" := Int(42), "name" := Str("Alice")];
    BoundSql(ExampleTemplate, [ParameterMapping("id"), ParameterMapping("name")],
             Other("demo.User", "demo.User@1b6d3586"), map[], fields, fields)
  }

  lemma ExampleFillFirst()
    ensures Fill(ExampleTemplate, ["42", "'Alice'"]) == ExampleHead + "42" + Fill(ExampleMid + "?", ["'Alice'"])
  {
    assert ExampleTemplate == ExampleHead + "?" + (ExampleMid + "?");
    FillAfter(ExampleHead, ExampleMid + "?", ["42", "'Alice'"]);
  }

  lemma ExampleFillSecond()
    ensures Fill(ExampleMid + "?", ["'Alice'"]) == ExampleMid + "'Alice'"
  {
    assert ExampleMid + "?" == ExampleMid + "?" + [];
    FillAfter(ExampleMid, [], ["'Alice'"]);
  }

  lemma ExampleFillPieces()
    ensures Fill(ExampleTemplate, ["42", "'Alice'"]) == ExampleHead + "42" + (ExampleMid + "'Alice'")
  {
    ExampleFillFirst();
    ExampleFillSecond();
  }

  lemma ExampleFillText()
    ensures ExampleHead + "42" + (ExampleMid + "'Alice'") == "SELECT * FROM t WHERE id = 42 AND name = 'Alice'"
  {
  }

  lemma ExampleFill()
    ensures Fill(ExampleTemplate, ["42", "'Alice'"]) == "SELECT * FROM t WHERE id = 42 AND name = 'Alice'"
  {
    ExampleFillPieces();
    ExampleFillText();
  }

  const ExampleRegistry: set<string> := {"java.lang.String"}

  lemma ExampleRenderTail()
    ensures RenderAll(ExampleBound(), ExampleRegistry, ExampleBound().mappings[1..]) == Some(["'Alice'"])
  {
    var b := ExampleBound();
    assert b.parameterObject.ClassName() == "demo.User";
    var tail := b.mappings[1..];
    assert tail == [ParameterMapping("name")] && tail[1..] == [] && tail[0].property == "name";
    assert "demo.User" !in ExampleRegistry;
    assert RenderAll(b, ExampleRegistry, tail[1..]) == Some([]);
    assert ResolveValue(b, ExampleRegistry, "name", DeclaredField) == Returned(Str("Alice"));
    assert FormatParameter(Str("Alice")).value == "'Alice'";
    assert RenderAll(b, ExampleRegistry, tail) == Some(["'Alice'"] + []);
    assert ["'Alice'"] + [] == ["'Alice'"];
  }

  lemma ExampleRenderings()
    ensures RenderAll(ExampleBound(), ExampleRegistry, ExampleBound().mappings) == Some(["42", "'Alice'"])
  {
    var b := ExampleBound();
    assert b.parameterObject.ClassName() == "demo.User";
    assert "demo.User" !in ExampleRegistry;
    assert DecimalString(42) == "42";
    assert b.mappings[0].property == "id";
    assert ResolveValue(b, ExampleRegistry, "id", DeclaredField) == Returned(Int(42));
    assert FormatParameter(Int(42)).value == "42";
    ExampleRenderTail();
    assert RenderAll(b, ExampleRegistry, b.mappings) == Some(["42"] + ["'Alice'"]);
    assert ["42"] + ["'Alice'"] == ["42", "'Alice'"];
  }

  lemma ExamplePlain()
    ensures var ts := ["42", "'Alice'"]; forall k :: 0 <= k < |ts| ==> Plain(ts[k])
  {
    assert Plain("42") && Plain("'Alice'");
  }

  /** The instance variant leaves numbers unquoted and quotes strings. */
  lemma ExampleInstance()
    ensures RealSql(ExampleBound(), ExampleRegistry) ==
            Returned("SELECT * FROM t WHERE id = 42 AND name = 'Alice'")
  {
    ExampleRenderings();
    ExamplePlain();
    RealSqlIsFill(ExampleBound(), ExampleRegistry, ["42", "'Alice'"]);
    ExampleFill();
  }

  const ExampleStaticHead: string := ExampleHead + "'42'" + ExampleMid

  lemma ExampleStaticRender()
    ensures RenderStatic(Int(42)) == "'42'" && RenderStatic(Str("Alice")) == "'Alice'"
  {
    assert DecimalString(42) == "42";
  }

  lemma ExampleStaticReplaceFirst()
    ensures ReplaceFirstPlaceholder(ExampleTemplate, Some("'42'")) == Returned(ExampleStaticHead + "?")
  {
    assert ExampleTemplate == ExampleHead + "?" + (ExampleMid + "?");
    ReplaceAfter(ExampleHead, ExampleMid + "?", "'42'");
    assert ExampleHead + "'42'" + (ExampleMid + "?") == ExampleStaticHead + "?";
  }

  lemma ExampleStaticReplaceSecond()
    ensures ReplaceFirstPlaceholder(ExampleStaticHead + "?", Some("'Alice'")) == Returned(ExampleStaticHead + "'Alice'")
  {
    assert ExampleStaticHead + "?" == ExampleStaticHead + "?" + [];
    ReplaceAfter(ExampleStaticHead, [], "'Alice'");
    assert ExampleStaticHead + "'Alice'" + [] == ExampleStaticHead + "'Alice'";
  }

  lemma ExampleStaticFirst()
    ensures SubstituteStatic(ExampleTemplate, [Int(42), Str("Alice")]) ==
            SubstituteStatic(ExampleStaticHead + "?", [Str("Alice")])
  {
    var ps := [Int(42), Str("Alice")];
    ExampleStaticRender();
    ExampleStaticReplaceFirst();
    SubstituteStaticStep(ExampleTemplate, ps, 0);
    assert ps[0..] == ps && ps[1..] == [Str("Alice")];
  }

  lemma ExampleStaticSecond()
    ensures SubstituteStatic(ExampleStaticHead + "?", [Str("Alice")]) == Returned(ExampleStaticHead + "'Alice'")
  {
    var ps := [Str("Alice")];
    ExampleStaticRender();
    ExampleStaticReplaceSecond();
    SubstituteStaticStep(ExampleStaticHead + "?", ps, 0);
    assert ps[0..] == ps && ps[1..] == [];
  }

  lemma ExampleStaticJoin()
    ensures ExampleStaticHead + "'Alice'" == "SELECT * FROM t WHERE id = '42' AND name = 'Alice'"
  {
  }

  lemma ExampleStaticText()
    ensures SubstituteStatic(ExampleTemplate, [Int(42), Str("Alice")]) ==
            Returned("SELECT * FROM t WHERE id = '42' AND name = 'Alice'")
  {
    ExampleStaticFirst();
    ExampleStaticSecond();
    ExampleStaticJoin();
  }

  /** The static variant quotes every non-null value, numbers included. */
  lemma ExampleStatic()
    ensures StaticRealSql(ExampleBound(), {"java.lang.String"}) ==
            Returned("SELECT * FROM t WHERE id = '42' AND name = 'Alice'")
  {
    var b := ExampleBound();
    var reg := {"java.lang.String"};
    assert b.parameterObject.ClassName() == "demo.User" && "demo.User" !in reg;
    assert ResolveValue(b, reg, "id", MetaProperty) == Returned(Int(42));
    assert ResolveValue(b, reg, "name", MetaProperty) == Returned(Str("Alice"));
    var first := b.mappings[..1];
    assert first == [ParameterMapping("id")] && first[..0] == [] && first[0].property == "id";
    assert CollectValues(b, reg, first[..0]) == Returned([]);
    assert CollectValues(b, reg, b.mappings[..1]).value == [Int(42)];
    assert b.mappings[..|b.mappings| - 1] == b.mappings[..1];
    assert CollectValues(b, reg, b.mappings).value == [Int(42), Str("Alice")];
    ExampleStaticText();
  }

  /** A bean whose field a holds the one-character string "?" and whose field b holds 5. */
  function PairBound(): BoundSql
  {
    var fields := map["a" := Str("?"), "b" := Int(5)];
    BoundSql("a = ? and b = ?", [ParameterMapping("a"), ParameterMapping("b")],
             Other("demo.Pair", "demo.Pair@1"), map[], fields, fields)
  }

  lemma PairTemplateSplit()
    ensures "a = ? and b = ?" == "a = " + "?" + " and b = ?"
  {
  }

  lemma PairFirstJoin()
    ensures "a = " + "'?'" + " and b = ?" == "a = '?' and b = ?"
  {
  }

  lemma PairFirstSplit()
    ensures "a = '?' and b = ?" == "a = '" + "?" + "' and b = ?"
  {
  }

  lemma PairSecondJoin()
    ensures "a = '" + "5" + "' and b = ?" == "a = '5' and b = ?"
  {
  }

  lemma PairTextFirst()
    ensures ReplaceFirstPlaceholder("a = ? and b = ?", Some("'?'")) == Returned("a = '?' and b = ?")
  {
    PairTemplateSplit();
    ReplaceAfter("a = ", " and b = ?", "'?'");
    PairFirstJoin();
  }

  lemma PairTextSecond()
    ensures ReplaceFirstPlaceholder("a = '?' and b = ?", Some("5")) == Returned("a = '5' and b = ?")
  {
    PairFirstSplit();
    ReplaceAfter("a = '", "' and b = ?", "5");
    PairSecondJoin();
  }

  /** A '?' inside an inserted value is the leftmost placeholder for the next mapping. */
  lemma PlaceholderInValueIsConsumed()
    ensures RealSql(PairBound(), {}) == Returned("a = '5' and b = ?")
  {
    var b := PairBound();
    var ms := b.mappings;
    assert ms[0].property == "a" && ms[1..][0].property == "b" && ms[1..][1..] == [];
    assert ResolveValue(b, {}, "a", DeclaredField) == Returned(Str("?"));
    assert FormatParameter(Str("?")).value == "'?'";
    assert ResolveValue(b, {}, "b", DeclaredField) == Returned(Int(5));
    assert DecimalString(5) == "5";
    assert FormatParameter(Int(5)).value == "5";
    PairTextFirst();
    PairTextSecond();
    assert RealSqlFrom(b, {}, "a = '5' and b = ?", []) == Returned("a = '5' and b = ?");
  }

  lemma DollarPlaceholder()
    ensures IndexOf("price = ?", '?') == Some(8)
  {
    assert "price = ?" == "price = " + "?" + [];
    PlaceholderAfter("price = ", []);
  }

  lemma DollarExpansion()
    ensures ExpandReplacement("'$5'", "?") == Threw(IndexOutOfBounds("No group 5"))
  {
    var t := "'$5'";
    assert t[1..] == "$5'" && t[1..][2..] == "'";
    assert ExpandReplacement(t[1..], "?").exc.what == "No group " + ['5'] == "No group 5";
    assert ExpandReplacement(t, "?") == ExpandReplacement(t[1..], "?");
  }

  /** A '$' in a string value is read as a group reference and the reconstruction throws. */
  lemma DollarInValueThrows()
    ensures
      var b := BoundSql("price = ?", [ParameterMapping("p")], Str("$5"), map[], map[], map[]);
      RealSql(b, {"java.lang.String"}) == Threw(IndexOutOfBounds("No group 5"))
  {
    var b := BoundSql("price = ?", [ParameterMapping("p")], Str("$5"), map[], map[], map[]);
    assert ResolveValue(b, {"java.lang.String"}, "p", DeclaredField) == Returned(Str("$5"));
    assert FormatParameter(Str("$5")).value == "'$5'";
    DollarPlaceholder();
    DollarExpansion();
  }
}
