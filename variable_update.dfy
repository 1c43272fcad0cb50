/**
 * Validated update of one egg variable
 * (app/Services/Eggs/Variables/VariableUpdateService.php).
 *
 * `Handle` runs three checks in order, stopping at the first failure — the
 * requested environment name is not reserved (ignoring case), no other variable
 * of the same egg already uses it, and the rule specification is accepted by the
 * rule validator — and then writes the request into the rows scoped to
 * (egg id, variable id), storing "" for every missing text field.
 */
module VariableUpdate {
  import opened Wrappers
  import EggConfig

  /** A rule specification: a single string or an already split list of rules. */
  datatype Rules = RuleText(text: string) | RuleList(items: seq<string>)

  /** One row of the `egg_variables` table. */
  datatype EggVariable = EggVariable(
    id: int,
    eggId: EggConfig.EggId,
    name: string,
    description: string,
    envVariable: string,
    defaultValue: string,
    userViewable: bool,
    userEditable: bool,
    rules: Rules)

  /** The `$data` array handed to `handle`; `None` is a missing or null entry. */
  datatype UpdateRequest = UpdateRequest(
    id: int,
    name: Option<string>,
    description: Option<string>,
    envVariable: Option<string>,
    defaultValue: Option<string>,
    userViewable: bool,
    userEditable: bool,
    rules: Option<Rules>)

  datatype UpdateError =
    | ReservedVariableName(name: string)
    | DuplicateEnvironmentVariable(name: string)
    | InvalidValidationRule(detail: string)

  datatype Outcome = Pass | Fail(error: UpdateError)

  /** What the rule validator says about a rule specification. */
  datatype Verdict = Accepted | Rejected(detail: string)

  /** The rule validator, whose rule language is outside this model. */
  type RuleValidator = Rules -> Verdict

  // ---------------------------------------------------------------------------
  // Reserved names: strtoupper and membership
  // ---------------------------------------------------------------------------

  predicate IsLower(c: char) { 'a' <= c <= 'z' }

  /** ASCII upper-casing of one character. */
  function UpperChar(c: char): (u: char)
    ensures !IsLower(u)
    ensures !IsLower(c) ==> u == c
    ensures IsLower(c) ==> u as int == c as int - 32
  {
    if IsLower(c) then (c as int - 32) as char else c
  }

  /** `strtoupper`: upper-cases every ASCII letter and keeps everything else. */
  function Upper(s: string): (r: string)
    ensures |r| == |s|
    ensures forall i :: 0 <= i < |r| ==> !IsLower(r[i])
  {
    if s == [] then [] else [UpperChar(s[0])] + Upper(s[1..])
  }

  /** `s` and `t` are the same name up to the case of their letters. */
  ghost predicate SameIgnoringCase(s: string, t: string)
  {
    |s| == |t| && forall i :: 0 <= i < |s| ==> UpperChar(s[i]) == UpperChar(t[i])
  }

  lemma {:induction false} UpperAt(s: string, i: int)
    requires 0 <= i < |s|
    ensures Upper(s)[i] == UpperChar(s[i])
  {
    if i > 0 {
      UpperAt(s[1..], i - 1);
    }
  }

  /** Upper-casing identifies exactly the names that differ only in case. */
  lemma UpperIgnoresCase(s: string, t: string)
    ensures Upper(s) == Upper(t) <==> SameIgnoringCase(s, t)
  {
    if Upper(s) == Upper(t) {
      forall i | 0 <= i < |s| ensures UpperChar(s[i]) == UpperChar(t[i]) {
        UpperAt(s, i);
        UpperAt(t, i);
      }
    }
    if SameIgnoringCase(s, t) {
      forall i | 0 <= i < |s| ensures Upper(s)[i] == Upper(t)[i] {
        UpperAt(s, i);
        UpperAt(t, i);
      }
    }
  }

  /** Upper-casing an already upper-cased name changes nothing. */
  lemma {:induction false} UpperIdempotent(s: string)
    ensures Upper(Upper(s)) == Upper(s)
  {
    forall i | 0 <= i < |s| ensures Upper(Upper(s))[i] == Upper(s)[i] {
      UpperAt(Upper(s), i);
    }
  }

  /** The upper-cased name is in the set exactly when the name matches an upper-case entry ignoring case. */
  lemma UpperMatch(env: string, reserved: set<string>)
    ensures Upper(env) in reserved <==>
              exists w :: w in reserved && Upper(w) == w && SameIgnoringCase(env, w)
  {
    if Upper(env) in reserved {
      var w := Upper(env);
      UpperIdempotent(env);
      UpperIgnoresCase(env, w);
      assert w in reserved && Upper(w) == w && SameIgnoringCase(env, w);
    }
    if exists w :: w in reserved && Upper(w) == w && SameIgnoringCase(env, w) {
      var w :| w in reserved && Upper(w) == w && SameIgnoringCase(env, w);
      UpperIgnoresCase(env, w);
    }
  }

  /** The reserved-name test of line 48. */
  predicate IsReserved(env: string, reserved: set<string>): (r: bool)
    ensures r <==> exists w :: w in reserved && Upper(w) == w && SameIgnoringCase(env, w)
  {
    UpperMatch(env, reserved);
    Upper(env) in reserved
  }

  /** A reserved name is rejected in whatever case it is written. */
  lemma ReservedInAnyCase(env: string, written: string, reserved: set<string>)
    requires SameIgnoringCase(env, written)
    ensures IsReserved(env, reserved) <==> IsReserved(written, reserved)
  {
    UpperIgnoresCase(env, written);
  }

  // ---------------------------------------------------------------------------
  // Sibling uniqueness
  // ---------------------------------------------------------------------------

  /** A different variable of the same egg already using `env` (case-sensitive). */
  predicate IsSibling(v: EggVariable, eggId: EggConfig.EggId, env: string, id: int)
  {
    v.eggId == eggId && v.envVariable == env && v.id != id
  }

  /** The count query of lines 52-55. */
  function SiblingCount(rows: seq<EggVariable>, eggId: EggConfig.EggId, env: string, id: int): (n: nat)
    ensures n <= |rows|
    ensures n == 0 <==> forall i :: 0 <= i < |rows| ==> !IsSibling(rows[i], eggId, env, id)
  {
    if rows == [] then 0
    else (if IsSibling(rows[0], eggId, env, id) then 1 else 0) + SiblingCount(rows[1..], eggId, env, id)
  }

  // ---------------------------------------------------------------------------
  // Rule normalisation: Str::contains and explode on ";;"
  // ---------------------------------------------------------------------------

  const Delimiter: string := ";;"

  /** `Str::contains(s, ';;')`. */
  predicate ContainsDelimiter(s: string)
  {
    |s| >= 2 && (s[..2] == Delimiter || ContainsDelimiter(s[1..]))
  }

  /** A delimiter starts at position `i` of `s`. */
  ghost predicate DelimiterAt(s: string, i: int)
  {
    0 <= i < |s| - 1 && s[i] == ';' && s[i + 1] == ';'
  }

  /** `Str::contains` holds exactly when some position of the string starts a `;;`. */
  lemma {:induction false} ContainsDelimiterAt(s: string)
    ensures ContainsDelimiter(s) <==> exists i :: DelimiterAt(s, i)
  {
    if |s| >= 2 {
      var t := s[1..];
      ContainsDelimiterAt(t);
      assert s[..2] == Delimiter <==> DelimiterAt(s, 0);
      assert forall i :: 0 < i ==> (DelimiterAt(s, i) <==> DelimiterAt(t, i - 1));
      if ContainsDelimiter(t) {
        var k :| DelimiterAt(t, k);
        assert DelimiterAt(s, k + 1);
      }
      if exists i :: DelimiterAt(s, i) {
        var k :| DelimiterAt(s, k);
        if k > 0 {
          assert DelimiterAt(t, k - 1);
        }
      }
    }
  }

  /** `explode(';;', s)`: the pieces between non-overlapping delimiters, scanning from the left. */
  function Split(s: string): (parts: seq<string>)
    ensures |parts| >= 1
    ensures ContainsDelimiter(s) <==> |parts| > 1
    ensures |parts[0]| <= |s| && parts[0] == s[..|parts[0]|]
    ensures forall i :: 0 <= i < |parts| ==> !ContainsDelimiter(parts[i])
  {
    if |s| < 2 then [s]
    else if s[..2] == Delimiter then [""] + Split(s[2..])
    else
      var rest := Split(s[1..]);
      [[s[0]] + rest[0]] + rest[1..]
  }

  /** `implode(';;', parts)`. */
  function Join(parts: seq<string>): string
    requires |parts| >= 1
  {
    if |parts| == 1 then parts[0] else parts[0] + Delimiter + Join(parts[1..])
  }

  /** Splitting loses nothing: joining the pieces gives back the rule string. */
  lemma {:induction false} JoinSplit(s: string)
    ensures Join(Split(s)) == s
  {
    if |s| < 2 {
    } else if s[..2] == Delimiter {
      JoinSplit(s[2..]);
      assert s == Delimiter + s[2..];
    } else {
      var rest := Split(s[1..]);
      JoinSplit(s[1..]);
      var parts := [[s[0]] + rest[0]] + rest[1..];
      assert Split(s) == parts;
      if |rest| == 1 {
        assert s == [s[0]] + s[1..];
      } else {
        assert parts[1..] == rest[1..];
        assert s == [s[0]] + s[1..];
      }
    }
  }

  /** A string without the delimiter is a single piece. */
  lemma {:induction false} SplitWithoutDelimiter(s: string)
    requires !ContainsDelimiter(s)
    ensures Split(s) == [s]
  {
    if |s| >= 2 {
      SplitWithoutDelimiter(s[1..]);
      assert [s[0]] + s[1..] == s;
    }
  }

  /** A piece that neither holds the delimiter nor ends in ';' is cut off whole. */
  lemma {:induction false} SplitAfterPiece(a: string, b: string)
    requires !ContainsDelimiter(a + [';'])
    ensures Split(a + Delimiter + b) == [a] + Split(b)
  {
    var s := a + Delimiter + b;
    if a == [] {
      assert s[..2] == Delimiter;
      assert s[2..] == b;
    } else {
      assert s[..2] != Delimiter;
      assert (a + [';'])[1..] == a[1..] + [';'];
      SplitAfterPiece(a[1..], b);
      assert s[1..] == a[1..] + Delimiter + b;
      var rest := Split(s[1..]);
      assert rest == [a[1..]] + Split(b);
      assert rest[0] == a[1..] && rest[1..] == Split(b);
      assert Split(s) == [[s[0]] + rest[0]] + rest[1..];
      assert [s[0]] + a[1..] == a;
    }
  }

  /** The other round trip: pieces that are safe to join split back into themselves. */
  lemma {:induction false} SplitJoin(parts: seq<string>)
    requires |parts| >= 1
    requires forall i :: 0 <= i < |parts| - 1 ==> !ContainsDelimiter(parts[i] + [';'])
    requires !ContainsDelimiter(parts[|parts| - 1])
    ensures Split(Join(parts)) == parts
  {
    if |parts| == 1 {
      SplitWithoutDelimiter(parts[0]);
    } else {
      SplitJoin(parts[1..]);
      SplitAfterPiece(parts[0], Join(parts[1..]));
    }
  }

  /** A piece with no ';' at all. */
  ghost predicate NoSemicolon(a: string)
  {
    forall i :: 0 <= i < |a| ==> a[i] != ';'
  }

  lemma {:induction false} NoSemicolonNoDelimiter(a: string)
    requires NoSemicolon(a)
    ensures !ContainsDelimiter(a) && !ContainsDelimiter(a + [';'])
  {
    if |a| >= 1 {
      assert (a + [';'])[..2][0] == a[0];
      assert (a + [';'])[1..] == a[1..] + [';'];
      NoSemicolonNoDelimiter(a[1..]);
    }
  }

  /** Three rules without ';' joined by the delimiter split back into those three rules. */
  lemma SplitThreeRules(a: string, b: string, c: string)
    requires NoSemicolon(a) && NoSemicolon(b) && NoSemicolon(c)
    ensures Split(a + Delimiter + (b + Delimiter + c)) == [a, b, c]
  {
    NoSemicolonNoDelimiter(c);
    SplitWithoutDelimiter(c);
    NoSemicolonNoDelimiter(b);
    SplitAfterPiece(b, c);
    NoSemicolonNoDelimiter(a);
    SplitAfterPiece(a, b + Delimiter + c);
  }

  /** The example rule string is split into its three rules, in order. */
  lemma SplitExample()
    ensures Split("required;;string;;max:20") == ["required", "string", "max:20"]
  {
    assert "required" + Delimiter + ("string" + Delimiter + "max:20") == "required;;string;;max:20";
    SplitThreeRules("required", "string", "max:20");
  }

  /** What is handed to the validator (lines 64-66). */
  function Normalize(rules: Rules): (n: Rules)
    ensures rules.RuleList? ==> n == rules
    ensures rules.RuleText? && !ContainsDelimiter(rules.text) ==> n == rules
    ensures rules.RuleText? && ContainsDelimiter(rules.text) ==>
              n == RuleList(Split(rules.text)) && |n.items| > 1 && Join(n.items) == rules.text
    ensures rules.RuleText? && n.RuleList? ==>
              forall i :: 0 <= i < |n.items| ==> !ContainsDelimiter(n.items[i])
  {
    if rules.RuleText? && ContainsDelimiter(rules.text) then
      JoinSplit(rules.text);
      RuleList(Split(rules.text))
    else rules
  }

  /** The example rule string reaches the validator as its three rules, in order. */
  lemma NormalizeExample()
    ensures Normalize(RuleText("required;;string;;max:20")) == RuleList(["required", "string", "max:20"])
  {
    SplitExample();
    assert Split("required;;string;;max:20") == ["required", "string", "max:20"];
    assert |Split("required;;string;;max:20")| > 1;
  }

  /** PHP's `empty($data['rules'] ?? '')`: null, "", "0" and the empty array are empty. */
  predicate IsEmptyRules(rules: Option<Rules>): (r: bool)
    ensures r <==> rules in {None, Some(RuleText("")), Some(RuleText("0")), Some(RuleList([]))}
  {
    match rules
    case None => true
    case Some(RuleText(t)) => t == "" || t == "0"
    case Some(RuleList(items)) => items == []
  }

  // ---------------------------------------------------------------------------
  // The checks and the update, as functions
  // ---------------------------------------------------------------------------

  /** The requested name passes the reserved-name and uniqueness checks (vacuously when absent). */
  ghost predicate EnvAccepted(eggId: EggConfig.EggId, data: UpdateRequest, rows: seq<EggVariable>, reserved: set<string>)
  {
    data.envVariable.Some? ==>
      && Upper(data.envVariable.value) !in reserved
      && forall i :: 0 <= i < |rows| ==> !IsSibling(rows[i], eggId, data.envVariable.value, data.id)
  }

  /** The fail-fast checks of lines 47-68, in order. */
  function Check(eggId: EggConfig.EggId, data: UpdateRequest, rows: seq<EggVariable>,
                 reserved: set<string>, validator: RuleValidator): (r: Outcome)
    ensures r.Fail? && r.error.ReservedVariableName? <==>
              data.envVariable.Some? && Upper(data.envVariable.value) in reserved
    ensures r.Fail? && r.error.DuplicateEnvironmentVariable? <==>
              && data.envVariable.Some? && Upper(data.envVariable.value) !in reserved
              && exists i :: 0 <= i < |rows| && IsSibling(rows[i], eggId, data.envVariable.value, data.id)
    ensures r.Fail? && r.error.InvalidValidationRule? <==>
              && EnvAccepted(eggId, data, rows, reserved)
              && !IsEmptyRules(data.rules)
              && validator(Normalize(data.rules.value)).Rejected?
    ensures r.Fail? && !r.error.InvalidValidationRule? ==> r.error.name == data.envVariable.value
    ensures r.Fail? && r.error.InvalidValidationRule? ==>
              r.error.detail == validator(Normalize(data.rules.value)).detail
  {
    if data.envVariable.Some? && IsReserved(data.envVariable.value, reserved) then
      Fail(ReservedVariableName(data.envVariable.value))
    else if data.envVariable.Some? && SiblingCount(rows, eggId, data.envVariable.value, data.id) > 0 then
      Fail(DuplicateEnvironmentVariable(data.envVariable.value))
    else if !IsEmptyRules(data.rules) && validator(Normalize(data.rules.value)).Rejected? then
      Fail(InvalidValidationRule(validator(Normalize(data.rules.value)).detail))
    else
      Pass
  }

  /** The row selected by `$egg->variables()->where('id', $data['id'])`. */
  predicate IsTarget(v: EggVariable, eggId: EggConfig.EggId, id: int)
  {
    v.eggId == eggId && v.id == id
  }

  /** The values written into a target row (lines 73-79). */
  function Updated(v: EggVariable, data: UpdateRequest): (u: EggVariable)
    ensures u.id == v.id && u.eggId == v.eggId
    ensures data.name.None? ==> u.name == ""
    ensures data.name.Some? ==> u.name == data.name.value
    ensures data.description.None? ==> u.description == ""
    ensures data.description.Some? ==> u.description == data.description.value
    ensures data.envVariable.None? ==> u.envVariable == ""
    ensures data.envVariable.Some? ==> u.envVariable == data.envVariable.value
    ensures data.defaultValue.None? ==> u.defaultValue == ""
    ensures data.defaultValue.Some? ==> u.defaultValue == data.defaultValue.value
    ensures data.rules.None? ==> u.rules == RuleText("")
    ensures data.rules.Some? ==> u.rules == data.rules.value
    ensures u.userViewable == data.userViewable && u.userEditable == data.userEditable
  {
    v.(name := data.name.GetOr(""),
       description := data.description.GetOr(""),
       envVariable := data.envVariable.GetOr(""),
       defaultValue := data.defaultValue.GetOr(""),
       userViewable := data.userViewable,
       userEditable := data.userEditable,
       rules := data.rules.GetOr(RuleText("")))
  }

  /** The scoped UPDATE of line 72: every target row rewritten, every other row kept. */
  function Apply(rows: seq<EggVariable>, eggId: EggConfig.EggId, data: UpdateRequest): (r: seq<EggVariable>)
    ensures |r| == |rows|
  {
    seq(|rows|, i requires 0 <= i < |rows| =>
      if IsTarget(rows[i], eggId, data.id) then Updated(rows[i], data) else rows[i])
  }

  // ---------------------------------------------------------------------------
  // The service
  // ---------------------------------------------------------------------------

  /** The `egg_variables` table. */
  class VariableTable {
    var rows: seq<EggVariable>

    constructor (rows: seq<EggVariable>)
      ensures this.rows == rows
    {
      this.rows := rows;
    }
  }

  class VariableUpdateService {
    /** The validation factory injected through the constructor. */
    const validator: RuleValidator
    /** `EggVariable::RESERVED_ENV_NAMES`, exploded on ','. */
    const reservedEnvNames: set<string>

    constructor (validator: RuleValidator, reservedEnvNames: set<string>)
      ensures this.validator == validator && this.reservedEnvNames == reservedEnvNames
    {
      this.validator := validator;
      this.reservedEnvNames := reservedEnvNames;
    }

    /** `handle(Egg $egg, array $data)`: fail fast, then one scoped update. */
    method Handle(egg: EggConfig.Egg, data: UpdateRequest, table: VariableTable) returns (r: Outcome)
      modifies table
      ensures r == Check(egg.id, data, old(table.rows), reservedEnvNames, validator)
      ensures r.Fail? ==> table.rows == old(table.rows)
      ensures r.Pass? ==> table.rows == Apply(old(table.rows), egg.id, data)
    {
      if data.envVariable.Some? {
        var env := data.envVariable.value;
        if IsReserved(env, reservedEnvNames) {
          return Fail(ReservedVariableName(env));
        }
        var count := SiblingCount(table.rows, egg.id, env, data.id);
        if count > 0 {
          return Fail(DuplicateEnvironmentVariable(env));
        }
      }
      if !IsEmptyRules(data.rules) {
        var verdict := validator(Normalize(data.rules.value));
        if verdict.Rejected? {
          return Fail(InvalidValidationRule(verdict.detail));
        }
      }
      table.rows := Apply(table.rows, egg.id, data);
      return Pass;
    }
  }

  // ---------------------------------------------------------------------------
  // Properties
  // ---------------------------------------------------------------------------

  /** Only the rows scoped to (egg id, request id) change; rows of other eggs with the same id do not. */
  lemma ApplyChangesOnlyTarget(rows: seq<EggVariable>, eggId: EggConfig.EggId, data: UpdateRequest)
    ensures forall i :: 0 <= i < |rows| && !IsTarget(rows[i], eggId, data.id) ==>
              Apply(rows, eggId, data)[i] == rows[i]
    ensures forall i :: 0 <= i < |rows| && Apply(rows, eggId, data)[i] != rows[i] ==>
              rows[i].eggId == eggId && rows[i].id == data.id
  {
  }

  /** A target row keeps its identity and takes the request's fields, with "" for every missing text. */
  lemma ApplyWritesDefaults(rows: seq<EggVariable>, eggId: EggConfig.EggId, data: UpdateRequest, i: int)
    requires 0 <= i < |rows| && IsTarget(rows[i], eggId, data.id)
    ensures var v := Apply(rows, eggId, data)[i];
      && v.id == data.id && v.eggId == eggId
      && (data.name.None? ==> v.name == "") && (data.name.Some? ==> v.name == data.name.value)
      && (data.description.None? ==> v.description == "")
      && (data.description.Some? ==> v.description == data.description.value)
      && (data.envVariable.None? ==> v.envVariable == "")
      && (data.envVariable.Some? ==> v.envVariable == data.envVariable.value)
      && (data.defaultValue.None? ==> v.defaultValue == "")
      && (data.defaultValue.Some? ==> v.defaultValue == data.defaultValue.value)
      && (data.rules.None? ==> v.rules == RuleText(""))
      && (data.rules.Some? ==> v.rules == data.rules.value)
      && v.userViewable == data.userViewable && v.userEditable == data.userEditable
  {
  }

  /** Repeating the same update changes nothing more. */
  lemma ApplyIdempotent(rows: seq<EggVariable>, eggId: EggConfig.EggId, data: UpdateRequest)
    ensures Apply(Apply(rows, eggId, data), eggId, data) == Apply(rows, eggId, data)
  {
  }

  /** A reserved name is rejected before anything else is looked at, whatever its case. */
  lemma ReservedNameRejected(eggId: EggConfig.EggId, data: UpdateRequest, rows: seq<EggVariable>,
                             reserved: set<string>, validator: RuleValidator, written: string)
    requires data.envVariable.Some? && written in reserved
    requires SameIgnoringCase(data.envVariable.value, written) && Upper(written) == written
    ensures Check(eggId, data, rows, reserved, validator) == Fail(ReservedVariableName(data.envVariable.value))
  {
    UpperIgnoresCase(data.envVariable.value, written);
  }

  /** The target's own current row never counts as a duplicate of the requested name. */
  lemma OwnRowIsNotDuplicate(eggId: EggConfig.EggId, data: UpdateRequest, rows: seq<EggVariable>,
                             reserved: set<string>, validator: RuleValidator)
    requires data.envVariable.Some?
    requires forall i :: 0 <= i < |rows| && rows[i].eggId == eggId && rows[i].envVariable == data.envVariable.value ==>
               rows[i].id == data.id
    ensures Check(eggId, data, rows, reserved, validator) != Fail(DuplicateEnvironmentVariable(data.envVariable.value))
  {
  }

  /** A duplicate in the scenario's shape: another variable of the same egg uses the name. */
  lemma DuplicateRejected(eggId: EggConfig.EggId, data: UpdateRequest, rows: seq<EggVariable>,
                          reserved: set<string>, validator: RuleValidator, k: int)
    requires data.envVariable.Some? && !IsReserved(data.envVariable.value, reserved)
    requires 0 <= k < |rows| && rows[k].eggId == eggId && rows[k].id != data.id
    requires rows[k].envVariable == data.envVariable.value
    ensures Check(eggId, data, rows, reserved, validator) == Fail(DuplicateEnvironmentVariable(data.envVariable.value))
  {
    assert IsSibling(rows[k], eggId, data.envVariable.value, data.id);
  }

  /** With no requested name, neither the reserved set nor the other rows matter. */
  lemma AbsentNameSkipsNameChecks(eggId: EggConfig.EggId, data: UpdateRequest, rows: seq<EggVariable>,
                                  reserved: set<string>, eggId': EggConfig.EggId, rows': seq<EggVariable>,
                                  reserved': set<string>, validator: RuleValidator)
    requires data.envVariable.None?
    ensures Check(eggId, data, rows, reserved, validator) == Check(eggId', data, rows', reserved', validator)
  {
  }

  /** Empty or missing rules are never handed to the validator. */
  lemma EmptyRulesSkipValidation(eggId: EggConfig.EggId, data: UpdateRequest, rows: seq<EggVariable>,
                                 reserved: set<string>, v1: RuleValidator, v2: RuleValidator)
    requires IsEmptyRules(data.rules)
    ensures Check(eggId, data, rows, reserved, v1) == Check(eggId, data, rows, reserved, v2)
    ensures var r := Check(eggId, data, rows, reserved, v1); !(r.Fail? && r.error.InvalidValidationRule?)
  {
  }

  /**
   * After a successful update with a name, the updated rows carry that name,
   * no other variable of the egg carries it, and it is not reserved.
   */
  lemma SuccessKeepsNameUnique(eggId: EggConfig.EggId, data: UpdateRequest, rows: seq<EggVariable>,
                               reserved: set<string>, validator: RuleValidator)
    requires Check(eggId, data, rows, reserved, validator) == Pass
    requires data.envVariable.Some?
    ensures Upper(data.envVariable.value) !in reserved
    ensures var rows' := Apply(rows, eggId, data);
      forall i :: 0 <= i < |rows'| && rows'[i].eggId == eggId ==>
        (rows'[i].envVariable == data.envVariable.value <==> rows'[i].id == data.id)
  {
  }
}
