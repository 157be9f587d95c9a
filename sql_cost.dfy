/** SqlCostLoggingInterceptor: a MyBatis Executor interceptor that runs the statement, then logs
    the mapper id, the statement text on one line, and either the number of results or, for a
    cursor query, only the cost. */
module SqlCost {
  import opened Java

  // ---------------------------------------------------------------- one-line SQL

  predicate NoRegexSpaceBut(s: string, c: char)
  {
    forall k :: 0 <= k < |s| && IsRegexSpace(s[k]) ==> s[k] == c
  }

  /** No two neighbouring characters are both `\s`. */
  predicate NoAdjacentSpaces(s: string)
  {
    forall k :: 0 <= k < |s| - 1 ==> !(IsRegexSpace(s[k]) && IsRegexSpace(s[k + 1]))
  }

  /** The characters above U+0020, in order: what neither collapsing nor trimming touches. */
  function Visible(s: string): string
  {
    if s == [] then []
    else (if IsTrimmable(s[0]) then [] else [s[0]]) + Visible(s[1..])
  }

  /** The rest of s after its leading run of `\s`. */
  function DropRegexSpaces(s: string): (r: string)
    ensures |r| <= |s| && r == s[|s| - |r|..]
    ensures r == [] || !IsRegexSpace(r[0])
    ensures forall k :: 0 <= k < |s| - |r| ==> IsRegexSpace(s[k])
  {
    if s != [] && IsRegexSpace(s[0]) then DropRegexSpaces(s[1..]) else s
  }

  /** Pattern.compile("\\s+").matcher(s).replaceAll(" "): each maximal run of `\s` becomes one
      space, everything else is kept. */
  function Collapse(s: string): (r: string)
    ensures NoRegexSpaceBut(r, ' ') && NoAdjacentSpaces(r)
    ensures r == [] <==> s == []
    ensures r != [] ==> (IsRegexSpace(r[0]) <==> IsRegexSpace(s[0]))
    decreases |s|
  {
    if s == [] then []
    else if IsRegexSpace(s[0]) then
      var rest := DropRegexSpaces(s);
      var c := Collapse(rest);
      assert c != [] ==> !IsRegexSpace(c[0]);
      " " + c
    else
      var c := Collapse(s[1..]);
      [s[0]] + c
  }

  /** The statement text as logged: whitespace runs collapsed, then trimmed. */
  function NormalizeSql(sql: string): string
  {
    Trim(Collapse(sql))
  }

  lemma {:induction false} VisibleConcat(a: string, b: string)
    ensures Visible(a + b) == Visible(a) + Visible(b)
    decreases |a|
  {
    if a != [] {
      var x := if IsTrimmable(a[0]) then [] else [a[0]];
      assert (a + b)[0] == a[0] && (a + b)[1..] == a[1..] + b;
      assert Visible(a + b) == x + Visible(a[1..] + b);
      VisibleConcat(a[1..], b);
      assert Visible(a) == x + Visible(a[1..]);
    } else {
      assert a + b == b;
    }
  }

  lemma {:induction false} VisibleOfTrimmable(s: string)
    requires forall k :: 0 <= k < |s| ==> IsTrimmable(s[k])
    ensures Visible(s) == []
    decreases |s|
  {
    if s != [] {
      VisibleOfTrimmable(s[1..]);
    }
  }

  lemma {:induction false} VisibleDropSpaces(s: string)
    ensures Visible(DropRegexSpaces(s)) == Visible(s)
    decreases |s|
  {
    if s != [] && IsRegexSpace(s[0]) {
      assert IsTrimmable(s[0]);
      assert Visible(s) == Visible(s[1..]);
      assert DropRegexSpaces(s) == DropRegexSpaces(s[1..]);
      VisibleDropSpaces(s[1..]);
    }
  }

  /** Collapsing keeps every character above U+0020, in order. */
  lemma {:induction false} CollapseKeepsVisible(s: string)
    ensures Visible(Collapse(s)) == Visible(s)
    decreases |s|
  {
    if s != [] {
      if IsRegexSpace(s[0]) {
        var rest := DropRegexSpaces(s);
        CollapseKeepsVisible(rest);
        VisibleDropSpaces(s);
        VisibleConcat(" ", Collapse(rest));
      } else {
        CollapseKeepsVisible(s[1..]);
        VisibleConcat([s[0]], Collapse(s[1..]));
        assert s == [s[0]] + s[1..];
        VisibleConcat([s[0]], s[1..]);
      }
    }
  }

  lemma VisibleOfPieces(head: string, mid: string, tail: string)
    requires forall k :: 0 <= k < |head| ==> IsTrimmable(head[k])
    requires forall k :: 0 <= k < |tail| ==> IsTrimmable(tail[k])
    ensures Visible(head + mid + tail) == Visible(mid)
  {
    VisibleConcat(head + mid, tail);
    VisibleConcat(head, mid);
    VisibleOfTrimmable(head);
    VisibleOfTrimmable(tail);
  }

  /** Cutting only characters at or below U+0020 off both ends keeps what is visible. */
  lemma VisibleOfInnerSlice(c: string, a: nat, b: nat)
    requires a <= b <= |c|
    requires forall k :: 0 <= k < a ==> IsTrimmable(c[k])
    requires forall k :: b <= k < |c| ==> IsTrimmable(c[k])
    ensures Visible(c[a..b]) == Visible(c)
  {
    SplitThree(c, a, b);
    TrimmablePrefix(c, a);
    TrimmableSuffix(c, b);
    VisibleOfPieces(c[..a], c[a..b], c[b..]);
  }

  lemma SplitThree(c: string, a: nat, b: nat)
    requires a <= b <= |c|
    ensures c == c[..a] + c[a..b] + c[b..]
  {
  }

  lemma TrimmablePrefix(c: string, a: nat)
    requires a <= |c| && forall k :: 0 <= k < a ==> IsTrimmable(c[k])
    ensures forall k :: 0 <= k < |c[..a]| ==> IsTrimmable(c[..a][k])
  {
  }

  lemma TrimmableSuffix(c: string, b: nat)
    requires b <= |c| && forall k :: b <= k < |c| ==> IsTrimmable(c[k])
    ensures forall k :: 0 <= k < |c[b..]| ==> IsTrimmable(c[b..][k])
  {
    assert forall k :: 0 <= k < |c[b..]| ==> c[b..][k] == c[b + k];
  }

  /** Trimming keeps every character above U+0020, in order. */
  lemma TrimKeepsVisible(c: string)
    ensures Visible(Trim(c)) == Visible(c)
  {
    var a, b :| && 0 <= a <= b <= |c| && Trim(c) == c[a..b]
                && (forall k :: 0 <= k < a ==> IsTrimmable(c[k]))
                && (forall k :: b <= k < |c| ==> IsTrimmable(c[k]));
    VisibleOfInnerSlice(c, a, b);
  }

  /** Trimming keeps the collapsed form: it only cuts characters off the ends. */
  lemma TrimKeepsCollapsed(c: string)
    requires NoRegexSpaceBut(c, ' ') && NoAdjacentSpaces(c)
    ensures NoRegexSpaceBut(Trim(c), ' ') && NoAdjacentSpaces(Trim(c))
  {
    var r := Trim(c);
    var a, b :| 0 <= a <= b <= |c| && r == c[a..b];
    assert forall k :: 0 <= k < |r| ==> r[k] == c[a + k];
  }

  /** The logged SQL: no leading or trailing whitespace, every `\s` in it a plain space, no two
      `\s` side by side, and every character above U+0020 of the statement kept in order. */
  lemma NormalizeSqlShape(sql: string)
    ensures var r := NormalizeSql(sql);
      && (r == [] || (!IsTrimmable(r[0]) && !IsTrimmable(r[|r| - 1])))
      && NoRegexSpaceBut(r, ' ') && NoAdjacentSpaces(r)
      && Visible(r) == Visible(sql)
  {
    var c := Collapse(sql);
    TrimKeepsCollapsed(c);
    TrimKeepsVisible(c);
    CollapseKeepsVisible(sql);
  }

  /** A string already in collapsed form is left alone by collapsing. */
  lemma {:induction false} CollapseFixed(s: string)
    requires NoRegexSpaceBut(s, ' ') && NoAdjacentSpaces(s)
    ensures Collapse(s) == s
    decreases |s|
  {
    if s != [] {
      if IsRegexSpace(s[0]) {
        assert s[0] == ' ';
        var rest := DropRegexSpaces(s);
        assert |s| == 1 || !IsRegexSpace(s[1]);
        assert rest == s[1..];
        CollapseFixed(s[1..]);
      } else {
        CollapseFixed(s[1..]);
        assert s == [s[0]] + s[1..];
      }
    }
  }

  /** Normalising twice is normalising once. */
  lemma NormalizeIdempotent(sql: string)
    ensures NormalizeSql(NormalizeSql(sql)) == NormalizeSql(sql)
  {
    var r := NormalizeSql(sql);
    NormalizeSqlShape(sql);
    CollapseFixed(r);
    TrimUntrimmable(r);
  }

  /** A word without `\s` is copied through by collapsing. */
  lemma {:induction false} CollapseWord(w: string, rest: string)
    requires forall k :: 0 <= k < |w| ==> !IsRegexSpace(w[k])
    ensures Collapse(w + rest) == w + Collapse(rest)
    decreases |w|
  {
    if w == [] {
      assert w + rest == rest;
    } else {
      var s := w + rest;
      assert s[0] == w[0] && s[1..] == w[1..] + rest;
      CollapseKeepsHead(s);
      CollapseWord(w[1..], rest);
      ConsAssoc(w, Collapse(rest));
    }
  }

  /** A character that is not `\s` is copied through. */
  lemma CollapseKeepsHead(s: string)
    requires s != [] && !IsRegexSpace(s[0])
    ensures Collapse(s) == [s[0]] + Collapse(s[1..])
  {
  }

  lemma ConsAssoc(w: string, t: string)
    requires w != []
    ensures [w[0]] + (w[1..] + t) == w + t
  {
    assert [w[0]] + w[1..] == w;
  }

  lemma {:induction false} DropRun(sp: string, rest: string)
    requires forall k :: 0 <= k < |sp| ==> IsRegexSpace(sp[k])
    requires rest == [] || !IsRegexSpace(rest[0])
    ensures DropRegexSpaces(sp + rest) == rest
    decreases |sp|
  {
    if sp == [] {
      assert sp + rest == rest;
    } else {
      assert (sp + rest)[1..] == sp[1..] + rest;
      DropRun(sp[1..], rest);
    }
  }

  /** A maximal run of `\s` becomes a single space. */
  lemma CollapseRun(sp: string, rest: string)
    requires sp != [] && forall k :: 0 <= k < |sp| ==> IsRegexSpace(sp[k])
    requires rest == [] || !IsRegexSpace(rest[0])
    ensures Collapse(sp + rest) == " " + Collapse(rest)
  {
    DropRun(sp, rest);
    assert (sp + rest)[0] == sp[0];
  }

  const ExampleTail := "FROM" + (" " + ("t" + "  "))
  const ExampleSql := "\n  " + ExampleSelect

  lemma ExampleLastWord()
    ensures Collapse("t" + "  ") == "t" + " "
  {
    var sp := "  ";
    assert sp + [] == sp;
    CollapseRun(sp, []);
    assert Collapse(sp) == " " + Collapse([]);
    assert Collapse([]) == [];
    assert Collapse(sp) == " ";
    CollapseWord("t", sp);
    assert Collapse("t" + sp) == "t" + " ";
  }

  lemma ExampleTailCollapsed()
    ensures Collapse(ExampleTail) == "FROM" + (" " + ("t" + " "))
  {
    ExampleLastWord();
    CollapseRun(" ", "t" + "  ");
    var w := "FROM";
    assert forall k :: 0 <= k < |w| ==> !IsRegexSpace(w[k]);
    CollapseWord(w, " " + ("t" + "  "));
  }

  const ExampleStar := "*" + ("\n\t" + ExampleTail)
  const ExampleSelect := "SELECT" + (" " + ExampleStar)
  const CollapsedTail := "FROM" + (" " + ("t" + " "))

  lemma ExampleStarCollapsed()
    ensures Collapse(ExampleStar) == "*" + (" " + CollapsedTail)
  {
    ExampleTailCollapsed();
    CollapseRun("\n\t", ExampleTail);
    CollapseWord("*", "\n\t" + ExampleTail);
  }

  lemma ExampleSelectCollapsed()
    ensures Collapse(ExampleSelect) == "SELECT" + (" " + Collapse(ExampleStar))
  {
    var w := "SELECT";
    assert forall k :: 0 <= k < |w| ==> !IsRegexSpace(w[k]);
    CollapseWord(w, " " + ExampleStar);
    CollapseRun(" ", ExampleStar);
  }

  lemma ExampleCollapsed()
    ensures Collapse(ExampleSql) == " " + ("SELECT" + (" " + ("*" + (" " + CollapsedTail))))
  {
    ExampleStarCollapsed();
    ExampleSelectCollapsed();
    CollapseRun("\n  ", ExampleSelect);
  }

  lemma ExampleInput()
    ensures ExampleSql == "\n  SELECT *\n\tFROM t  "
  {
  }

  lemma ExampleCollapsedText()
    ensures " " + ("SELECT" + (" " + ("*" + (" " + CollapsedTail)))) == " SELECT * FROM t "
  {
  }

  lemma ExampleTrimmed()
    ensures Trim(" SELECT * FROM t ") == "SELECT * FROM t"
  {
    var c := " SELECT * FROM t ";
    assert LeadingTrimmable(c) == 1;
    assert c[1..] == "SELECT * FROM t ";
    assert TrailingTrimmable(c[1..]) == 1;
  }

  /** A statement laid out over several lines becomes one line. */
  lemma NormalizeExample()
    ensures NormalizeSql("\n  SELECT *\n\tFROM t  ") == "SELECT * FROM t"
  {
    ExampleInput();
    ExampleCollapsed();
    ExampleCollapsedText();
    ExampleTrimmed();
  }

  // ---------------------------------------------------------------- intercept

  /** The result size: a List's size, 1 for any other result, 0 for null. */
  function ResultSize(result: JObject): (n: nat)
    ensures result.List? ==> n == result.size
    ensures !result.List? ==> (n == 1 <==> !result.Null?) && (n == 0 <==> result.Null?)
  {
    if result.List? then result.size
    else if !result.Null? then 1
    else 0
  }

  /** args[0] of the intercepted Executor call: the mapper id and the SQL text it binds for a
      parameter object. */
  datatype MappedStatement = MappedStatement(id: string, sqlFor: JObject -> string)

  /** An intercepted Executor call: the method name (query, update or queryCursor), the mapped
      statement, and the remaining arguments. */
  datatype Invocation = Invocation(methodName: string, statement: MappedStatement, rest: seq<JObject>)

  /** args.length > 1 ? args[1] : null. */
  function Param(inv: Invocation): (p: JObject)
    ensures inv.rest == [] ==> p.Null?
    ensures inv.rest != [] ==> p == inv.rest[0]
  {
    if |inv.rest| > 0 then inv.rest[0] else Null
  }

  /** Lines logged at debug level. */
  datatype DebugLine =
    | Mapper(id: string)
    | Sql(sql: string)
    | CursorOpened(cost: int)
    | Total(size: nat, cost: int)

  /** intercept: `proceeded` is how invocation.proceed() completed; `start` and `end` are the
      clock readings before and after it. There is no finally block: an exception from proceed
      leaves at once. */
  function Intercept(inv: Invocation, start: int, proceeded: Outcome<JObject>, end: int): (Outcome<JObject>, seq<DebugLine>)
  {
    match proceeded
    case Threw(_) => (proceeded, [])
    case Returned(result) =>
      var cost := end - start;
      var sql := NormalizeSql(inv.statement.sqlFor(Param(inv)));
      var head := [Mapper(inv.statement.id), Sql(sql)];
      if inv.methodName == "queryCursor" then (proceeded, head + [CursorOpened(cost)])
      else (proceeded, head + [Total(ResultSize(result), cost)])
  }

  /** intercept returns what proceed returned, or rethrows what it threw; it logs nothing when
      proceed throws, and otherwise logs the mapper id, the one-line SQL bound for args[1], and
      a cursor line for queryCursor or a Total line with the result size and the cost. */
  lemma InterceptContract(inv: Invocation, start: int, proceeded: Outcome<JObject>, end: int)
    ensures var (outcome, lines) := Intercept(inv, start, proceeded, end);
      && outcome == proceeded
      && (proceeded.Threw? ==> lines == [])
      && (proceeded.Returned? ==>
            && |lines| == 3
            && lines[0] == Mapper(inv.statement.id)
            && lines[1] == Sql(NormalizeSql(inv.statement.sqlFor(Param(inv))))
            && lines[2] == if inv.methodName == "queryCursor" then CursorOpened(end - start)
                           else Total(ResultSize(proceeded.value), end - start))
  {
  }
}
