/** Condition syntax: `module|export` conditions, the boolean suffix
    `name#?condition` and the interpolation `#{condition}`. The condition module
    is loaded and read outside this model; its value is an input. */
module Conditions {
  import opened Wrappers
  import opened JsString
  import opened Errors

  /** `{ module, prop, negate }`: read `prop` of `conditionModule`, negated when `negate`. */
  datatype Condition = Condition(conditionModule: string, prop: string, negate: bool)

  const SystemEnv: string := "@system-env"

  /** The properties of `@system-env` that may be named on their own. */
  const SysConditions: seq<string> := ["browser", "node", "dev", "build", "production", "default"]

  /** What `parseCondition` always produces: a module name, a property without `|`,
      and a property starting with `~` only when negated. */
  predicate WellFormed(c: Condition)
  {
    c.conditionModule != "" && '|' !in c.prop && (!c.negate ==> CharAt(c.prop, 0) != Some('~'))
  }

  /** `parseCondition` when there is a `|`: `conditionModule` before the last
      one, `conditionExport` after it. */
  function ParseExport(conditionModule: string, conditionExport: string): (c: Condition)
    requires '|' !in conditionExport
    ensures WellFormed(c)
  {
    var negation := CharAt(conditionExport, 0) == Some('~');
    Condition(if conditionModule != "" then conditionModule else SystemEnv,
              if negation then SubstrFrom(conditionExport, 1) else conditionExport,
              negation)
  }

  /** `parseCondition`. With a `|`, the text after the last `|` is the export and
      a leading `~` on it negates; without one, a leading `~` negates, the export is
      `default`, and a bare system condition is an export of `@system-env`. An
      empty module is `@system-env`. */
  function ParseCondition(condition: string): (c: Condition)
    ensures WellFormed(c)
  {
    var conditionExportIndex := LastIndexOf(condition, '|');
    if conditionExportIndex != -1 then
      assert SubstrFrom(condition, conditionExportIndex + 1) == condition[conditionExportIndex + 1..];
      ParseExport(Substr(condition, 0, conditionExportIndex), SubstrFrom(condition, conditionExportIndex + 1))
    else ParseBare(condition)
  }

  /** `parseCondition` without a `|`. */
  function ParseBare(condition: string): (c: Condition)
    requires '|' !in condition
    ensures WellFormed(c)
  {
    var negation := CharAt(condition, 0) == Some('~');
    var conditionModule := SubstrFrom(condition, if negation then 1 else 0);
    if conditionModule in SysConditions then Condition(SystemEnv, conditionModule, negation)
    else Condition(if conditionModule != "" then conditionModule else SystemEnv, "default", negation)
  }

  /** `serializeCondition`. */
  function SerializeCondition(c: Condition): string
  {
    c.conditionModule + "|" + (if c.negate then "~" else "") + c.prop
  }

  /** With a `|` at position `i` and none after it, parsing splits there. */
  lemma ParseAtLastBar(s: string, i: int)
    requires 0 <= i < |s| && s[i] == '|' && '|' !in s[i + 1..]
    ensures ParseCondition(s) == ParseExport(s[..i], s[i + 1..])
  {
    LastIndexOfAt(s, '|', i);
    SubstrPrefix(s, i);
    assert SubstrFrom(s, i + 1) == s[i + 1..];
  }

  /** Parsing a serialized condition gives it back, for every condition
      `parseCondition` can produce. */
  lemma ParseSerialize(c: Condition)
    requires WellFormed(c)
    ensures ParseCondition(SerializeCondition(c)) == c
  {
    var s := SerializeCondition(c);
    var tail := (if c.negate then "~" else "") + c.prop;
    assert s == c.conditionModule + "|" + tail;
    SerializedSplits(c.conditionModule, tail);
    ParseAtLastBar(s, |c.conditionModule|);
    ParseExportTail(c);
  }

  /** `module|tail` with no `|` in `tail` splits at the module's end. */
  lemma SerializedSplits(conditionModule: string, tail: string)
    requires '|' !in tail
    ensures var s := conditionModule + "|" + tail; var i := |conditionModule|;
      s[i] == '|' && s[i + 1..] == tail && s[..i] == conditionModule
  {
    var s := conditionModule + "|" + tail;
    assert s[|conditionModule| + 1..] == tail;
    assert s[..|conditionModule|] == conditionModule;
  }

  /** The export part of a serialized condition parses back to it. */
  lemma ParseExportTail(c: Condition)
    requires WellFormed(c)
    ensures ParseExport(c.conditionModule, (if c.negate then "~" else "") + c.prop) == c
  {
    if c.negate {
      var tail := "~" + c.prop;
      assert CharAt(tail, 0) == Some('~');
      assert SubstrFrom(tail, 1) == tail[1..] == c.prop;
    }
  }

  lemma SerializeExport(conditionModule: string, conditionExport: string)
    requires conditionModule != "" && '|' !in conditionExport
    ensures SerializeCondition(ParseExport(conditionModule, conditionExport))
            == conditionModule + "|" + conditionExport
  {
    var e := conditionExport;
    if CharAt(e, 0) == Some('~') {
      assert e == [e[0]] + e[1..];
    }
  }

  /** Serializing a parsed condition gives back any text of the form
      `module|export` with a non-empty module. */
  lemma SerializeParse(s: string)
    requires LastIndexOf(s, '|') > 0
    ensures SerializeCondition(ParseCondition(s)) == s
  {
    var i := LastIndexOf(s, '|');
    ParseAtLastBar(s, i);
    SerializeExport(s[..i], s[i + 1..]);
    SplitAround(s, i);
  }

  lemma SplitAround(s: string, i: int)
    requires 0 <= i < |s| && s[i] == '|'
    ensures s == s[..i] + "|" + s[i + 1..]
  {
    assert s[..i] + "|" + s[i + 1..] == s[..i] + s[i..];
  }

  /** A condition module's property value, as far as the resolver looks at it. */
  datatype JsValue = JsBool(b: bool) | JsStr(s: string) | JsOther(truthy: bool)

  predicate Truthiness(v: JsValue)
  {
    match v
    case JsBool(b) => b
    case JsStr(s) => s != ""
    case JsOther(t) => t
  }

  /** The value check and negation of `resolveCondition`, given the property
      value `m` read off the loaded condition module. */
  function ConditionValue(c: Condition, m: JsValue, isBoolean: bool): (r: Result<JsValue>)
    ensures r.Err? <==> isBoolean && !m.JsBool?
    ensures r.Ok? && c.negate ==> r.value == JsBool(!Truthiness(m))
    ensures r.Ok? && !c.negate ==> r.value == m
    ensures r.Ok? ==> (Truthiness(r.value) <==> Truthiness(m) != c.negate)
  {
    if isBoolean && !m.JsBool? then Err(ConditionNotBoolean(SerializeCondition(c)))
    else Ok(if c.negate then JsBool(!Truthiness(m)) else m)
  }

  /** `booleanConditional`: the condition after the last `#?` decides between
      the name before it and `@empty`; `read` gives each condition's property value. */
  function BooleanConditional(name: string, read: Condition -> JsValue): Result<string>
  {
    var booleanIndex := LastIndexOfSeq(name, "#?");
    if booleanIndex == -1 then Ok(name)
    else
      var conditionObj := ParseCondition(SubstrFrom(name, booleanIndex + 2));
      match ConditionValue(conditionObj, read(conditionObj), true)
      case Err(e) => Err(e)
      case Ok(conditionValue) =>
        Ok(if Truthiness(conditionValue) then Substr(name, 0, booleanIndex) else "@empty")
  }

  /** Without `#?` the name is kept. Otherwise, with `i` the last `#?`, a
      non-boolean condition is an error naming it, a condition that holds (after
      negation) strips everything from `i`, and one that fails gives `@empty`. */
  lemma BooleanConditionalOutcome(name: string, read: Condition -> JsValue, i: int)
    ensures (forall k :: 0 <= k ==> !OccursAt(name, "#?", k)) ==> BooleanConditional(name, read) == Ok(name)
    ensures OccursAt(name, "#?", i) && (forall k :: i < k ==> !OccursAt(name, "#?", k)) ==>
      var c := ParseCondition(name[i + 2..]);
      var m := read(c);
      BooleanConditional(name, read)
      == if !m.JsBool? then Err(ConditionNotBoolean(SerializeCondition(c)))
         else if m.b != c.negate then Ok(name[..i])
         else Ok("@empty")
  {
    if OccursAt(name, "#?", i) && (forall k :: i < k ==> !OccursAt(name, "#?", k)) {
      assert LastIndexOfSeq(name, "#?") == i;
      SubstrFromTail(name, i + 2);
      SubstrPrefix(name, i);
    }
  }

  /** A `#{` at `s` opening an interpolation: at least one character other than
      `}` and then a `}`. */
  predicate InterpolationAt(name: string, s: int)
  {
    0 <= s && s + 2 < |name| && name[s] == '#' && name[s + 1] == '{'
    && name[s + 2] != '}' && '}' in name[s + 2..]
  }

  /** The interpolation `name[start..end]`, braces included. */
  datatype Span = Span(start: nat, end: nat)

  /** The leftmost match of `/#\{[^\}]+\}/` at or after `s`. */
  function InterpolationFrom(name: string, s: nat): Option<Span>
    decreases |name| - s
  {
    if s + 1 >= |name| then None
    else if InterpolationAt(name, s) then
      Some(Span(s, s + 2 + IndexOf(name[s + 2..], '}') + 1))
    else InterpolationFrom(name, s + 1)
  }

  /** The match found from `s` is the leftmost interpolation at or after `s`:
      it opens with `#{`, closes at the first `}` after that, and nothing
      before it opens one; with no match, nothing from `s` on opens one. */
  lemma InterpolationFromMeans(name: string, s: nat)
    ensures var r := InterpolationFrom(name, s);
      r.Some? ==>
        s <= r.value.start && InterpolationAt(name, r.value.start)
        && r.value.start + 4 <= r.value.end <= |name|
        && name[r.value.end - 1] == '}' && '}' !in name[r.value.start + 2..r.value.end - 1]
    ensures var r := InterpolationFrom(name, s);
      forall k :: s <= k && (r.None? || k < r.value.start) ==> !InterpolationAt(name, k)
  {
    if InterpolationFrom(name, s).Some? {
      InterpolationFound(name, s);
    }
    InterpolationLeftmost(name, s);
  }

  lemma {:induction false} InterpolationFound(name: string, s: nat)
    requires InterpolationFrom(name, s).Some?
    ensures var span := InterpolationFrom(name, s).value;
      s <= span.start && InterpolationAt(name, span.start)
      && span.start + 4 <= span.end <= |name|
      && name[span.end - 1] == '}' && '}' !in name[span.start + 2..span.end - 1]
    decreases |name| - s
  {
    if InterpolationAt(name, s) {
      ClosingBrace(name, s);
    } else {
      InterpolationFound(name, s + 1);
    }
  }

  lemma {:induction false} InterpolationLeftmost(name: string, s: nat)
    ensures var r := InterpolationFrom(name, s);
      forall k :: s <= k && (r.None? || k < r.value.start) ==> !InterpolationAt(name, k)
    decreases |name| - s
  {
    if s + 1 < |name| && !InterpolationAt(name, s) {
      InterpolationLeftmost(name, s + 1);
    }
  }

  /** Two positions that both hold the first `}` after `lo` are the same. */
  lemma FirstBraceUnique(name: string, lo: int, e1: int, e2: int)
    requires 0 <= lo < e1 <= |name| && lo < e2 <= |name|
    requires name[e1 - 1] == '}' && '}' !in name[lo..e1 - 1]
    requires name[e2 - 1] == '}' && '}' !in name[lo..e2 - 1]
    ensures e1 == e2
  {
  }

  /** The first `}` after an opening `#{` at `s`. */
  lemma ClosingBrace(name: string, s: int)
    requires InterpolationAt(name, s)
    ensures var j := IndexOf(name[s + 2..], '}');
      1 <= j && s + 2 + j < |name| && name[s + 2 + j] == '}' && '}' !in name[s + 2..s + 2 + j]
  {
    var t := name[s + 2..];
    var j := IndexOf(t, '}');
    assert t[0] == name[s + 2];
    assert t[..j] == name[s + 2..s + 2 + j];
  }

  /** `String.prototype.replace` expanding `$$`, `$&`, `` $` `` and `$'` in the
      replacement text; any other `$` stays as it is (the pattern has no groups). */
  function ExpandReplacement(rep: string, matched: string, before: string, after: string): string
  {
    if rep == [] then []
    else if rep[0] == '$' && |rep| >= 2 && rep[1] in "$&`'" then
      (if rep[1] == '$' then "$" else if rep[1] == '&' then matched
       else if rep[1] == '`' then before else after)
      + ExpandReplacement(rep[2..], matched, before, after)
    else [rep[0]] + ExpandReplacement(rep[1..], matched, before, after)
  }

  /** A replacement without `$` is inserted as it is. */
  lemma {:induction false} ExpandLiteral(rep: string, matched: string, before: string, after: string)
    requires '$' !in rep
    ensures ExpandReplacement(rep, matched, before, after) == rep
  {
    if rep != [] {
      assert '$' !in rep[1..] by { assert forall c :: c in rep[1..] ==> c in rep; }
      ExpandLiteral(rep[1..], matched, before, after);
      assert rep == [rep[0]] + rep[1..];
    }
  }

  /** `interpolateConditional`: the first `#{condition}` is replaced by the
      condition's value, which must be a string without `/`. */
  function InterpolateConditional(name: string, parentName: Option<string>,
                                  read: Condition -> JsValue): (r: Result<string>)
    ensures (forall k :: 0 <= k ==> !InterpolationAt(name, k)) ==> r == Ok(name)
  {
    InterpolationFromMeans(name, 0);
    match InterpolationFrom(name, 0)
    case None => Ok(name)
    case Some(span) =>
      var conditionalMatch := name[span.start..span.end];
      var conditionObj := ParseCondition(Substr(conditionalMatch, 2, |conditionalMatch| - 3));
      match ConditionValue(conditionObj, read(conditionObj), false)
      case Err(e) => Err(e)
      case Ok(conditionValue) =>
        if !conditionValue.JsStr? then Err(ConditionNotString(name))
        else if '/' in conditionValue.s then
          Err(ConditionHasSeparator(name, Or(parentName, ""), conditionValue.s))
        else
          Ok(name[..span.start]
             + ExpandReplacement(conditionValue.s, conditionalMatch, name[..span.start], name[span.end..])
             + name[span.end..])
  }

  /** The leftmost interpolation, when it starts at `s` and its first `}` is at `e - 1`. */
  lemma LeftmostInterpolation(name: string, s: int, e: int)
    requires 0 <= s && s + 2 < e <= |name| && InterpolationAt(name, s)
    requires forall k :: 0 <= k < s ==> !InterpolationAt(name, k)
    requires name[e - 1] == '}' && '}' !in name[s + 2..e - 1]
    ensures InterpolationFrom(name, 0) == Some(Span(s, e))
  {
    InterpolationFromMeans(name, 0);
    var r := InterpolationFrom(name, 0);
    assert r.Some? && r.value.start == s;
    FirstBraceUnique(name, s + 2, r.value.end, e);
  }

  /** With the leftmost interpolation spanning `name[s..e]`, the condition is
      the text between the braces; a negated condition reads as a boolean and is
      refused, and so is any value that is not a string; a string value holding a
      `/` is refused; one with neither `/` nor `$` takes the place of the braces
      and what they enclose. */
  lemma InterpolateOutcome(name: string, parentName: Option<string>, read: Condition -> JsValue,
                           s: int, e: int)
    requires 0 <= s && s + 2 < e <= |name| && InterpolationAt(name, s)
    requires forall k :: 0 <= k < s ==> !InterpolationAt(name, k)
    requires name[e - 1] == '}' && '}' !in name[s + 2..e - 1]
    ensures var c := ParseCondition(name[s + 2..e - 1]);
      var r := InterpolateConditional(name, parentName, read);
      (c.negate ==> r == Err(ConditionNotString(name)))
      && (!read(c).JsStr? ==> r.Err?)
      && (read(c).JsStr? && !c.negate && '/' in read(c).s
          ==> r == Err(ConditionHasSeparator(name, Or(parentName, ""), read(c).s)))
      && (read(c).JsStr? && !c.negate && '/' !in read(c).s && '$' !in read(c).s
          ==> r == Ok(name[..s] + read(c).s + name[e..]))
  {
    LeftmostInterpolation(name, s, e);
    var m := name[s..e];
    InnerText(name, s, e);
    var c := ParseCondition(name[s + 2..e - 1]);
    if read(c).JsStr? && '$' !in read(c).s {
      ExpandLiteral(read(c).s, m, name[..s], name[e..]);
    }
  }

  /** The text between `#{` and `}` of the interpolation `name[s..e]`. */
  lemma InnerText(name: string, s: int, e: int)
    requires 0 <= s && s + 2 < e <= |name|
    ensures Substr(name[s..e], 2, e - s - 3) == name[s + 2..e - 1]
  {
    var inner, expected := name[s..e][2..e - s - 1], name[s + 2..e - 1];
    assert |inner| == |expected|;
    forall k | 0 <= k < |inner|
      ensures inner[k] == expected[k]
    {
      assert inner[k] == name[s + 2 + k];
    }
  }
}
