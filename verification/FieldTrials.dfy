/**
 The field-trial string parser: "key/value/key/value/" into a map, with a fatal check
 for every malformed string.
 */
module FieldTrials {

  datatype Trial = Trial(key: string, value: string)

  /** The checks that can end the program, in source order. */
  datatype Check = MissingKeySeparator | EmptyKey | MissingValue | MissingTerminator | EmptyValue | NotConsumed

  datatype Outcome = Passed(trials: map<string, string>) | Died(check: Check)

  // ---------- the grammar ----------

  predicate WellFormedPart(part: string) {
    part != "" && '/' !in part
  }

  predicate WellFormed(trials: seq<Trial>) {
    forall i :: 0 <= i < |trials| ==> WellFormedPart(trials[i].key) && WellFormedPart(trials[i].value)
  }

  function RenderOne(t: Trial): string {
    t.key + "/" + t.value + "/"
  }

  function Render(trials: seq<Trial>): string {
    if trials == [] then "" else RenderOne(trials[0]) + Render(trials[1..])
  }

  ghost predicate IsTrialString(s: string) {
    exists trials :: WellFormed(trials) && s == Render(trials)
  }

  /** The map that inserting the trials in order builds, an insertion being void when the key is there. */
  function FirstWins(trials: seq<Trial>): map<string, string> {
    if trials == [] then map[]
    else
      var n := |trials| - 1;
      var m := FirstWins(trials[..n]);
      if trials[n].key in m then m else m[trials[n].key := trials[n].value]
  }

  /** The first position of `key`, or the number of trials. */
  function FirstIndex(trials: seq<Trial>, key: string): (i: nat)
    ensures i <= |trials|
    ensures i < |trials| ==> trials[i].key == key
    ensures forall j :: 0 <= j < i ==> trials[j].key != key
  {
    if trials == [] || trials[0].key == key then 0 else 1 + FirstIndex(trials[1..], key)
  }

  /** Every key is mapped to the value it is first given, and there are no other keys. */
  lemma {:induction false} FirstWinsExact(trials: seq<Trial>, key: string)
    ensures key in FirstWins(trials) <==> FirstIndex(trials, key) < |trials|
    ensures key in FirstWins(trials) ==> FirstWins(trials)[key] == trials[FirstIndex(trials, key)].value
    decreases |trials|
  {
    hide FirstIndex;
    if trials != [] {
      var n := |trials| - 1;
      var init := trials[..n];
      FirstWinsExact(init, key);
      var i, k := FirstIndex(trials, key), FirstIndex(init, key);
      assert k < n ==> init[k] == trials[k];
      assert i < n ==> init[i] == trials[i];
      assert forall j :: 0 <= j < n ==> init[j] == trials[j];
    }
  }

  /** What is wrong with the text behind the last complete trial, for each check. */
  ghost predicate Blames(check: Check, rest: string) {
    match check
    case MissingKeySeparator => WellFormedPart(rest)
    case EmptyKey => "/" <= rest
    case MissingValue => exists key :: WellFormedPart(key) && rest == key + "/"
    case MissingTerminator =>
      exists key, value :: WellFormedPart(key) && WellFormedPart(value) && rest == key + "/" + value
    case EmptyValue => exists key, more :: WellFormedPart(key) && rest == key + "//" + more
    case NotConsumed => false
  }

  /** The check fails behind some complete trials. */
  ghost predicate Dies(s: string, check: Check) {
    exists read :: DiesAfter(s, read, check)
  }

  /** The check fails right behind the trials read so far. */
  ghost predicate DiesAfter(s: string, read: seq<Trial>, check: Check) {
    WellFormed(read) && Render(read) <= s && Blames(check, s[|Render(read)|..])
  }

  // ---------- finding separators ----------

  /** std::string::find('/', from), with the length of the string for npos. */
  function FindSlash(s: string, from: nat): (pos: nat)
    requires from <= |s|
    ensures from <= pos <= |s|
    ensures pos < |s| ==> s[pos] == '/'
    ensures forall i :: from <= i < pos ==> s[i] != '/'
    decreases |s| - from
  {
    if from == |s| || s[from] == '/' then from else FindSlash(s, from + 1)
  }

  lemma {:induction false} SlashAfterPart(s: string, from: nat, part: string, rest: string)
    requires from <= |s| && s[from..] == part + "/" + rest && '/' !in part
    ensures FindSlash(s, from) == from + |part|
    ensures from + |part| < |s| && s[from + |part| + 1..] == rest
  {
    assert s[from + |part|] == s[from..][|part|] == '/';
    forall i | from <= i < from + |part| ensures s[i] != '/' {
      assert s[i] == s[from..][i - from] == part[i - from];
    }
    assert s[from + |part| + 1..] == s[from..][|part| + 1..] == rest;
  }

  // ---------- a string has at most one reading ----------

  /** What comes before the first slash, and what comes after it. */
  lemma {:induction false} SamePart(x: string, rest: string, y: string, more: string)
    requires '/' !in x && '/' !in y && x + "/" + rest == y + "/" + more
    ensures x == y && rest == more
  {
    hide FindSlash;
    var s := x + "/" + rest;
    assert s[0..] == s;
    SlashAfterPart(s, 0, x, rest);
    SlashAfterPart(s, 0, y, more);
    assert x == s[..|x|] == y;
  }

  /** A string starts with at most one well-formed trial. */
  lemma {:induction false} SameHead(t: Trial, rest: string, u: Trial, more: string)
    requires WellFormedPart(t.key) && WellFormedPart(t.value) && WellFormedPart(u.key) && WellFormedPart(u.value)
    requires RenderOne(t) + rest == RenderOne(u) + more
    ensures t == u && rest == more
  {
    assert RenderOne(t) + rest == t.key + "/" + (t.value + "/" + rest);
    assert RenderOne(u) + more == u.key + "/" + (u.value + "/" + more);
    SamePart(t.key, t.value + "/" + rest, u.key, u.value + "/" + more);
    SamePart(t.value, rest, u.value, more);
  }

  lemma {:induction false} RenderHead(trials: seq<Trial>, more: string)
    requires trials != []
    ensures Render(trials) + more == RenderOne(trials[0]) + (Render(trials[1..]) + more)
  {
  }

  /** Of two readings of the front of a string, the longer goes on where the shorter ends. */
  lemma {:induction false} SamePrefix(read: seq<Trial>, rest: string, trials: seq<Trial>, more: string)
    requires WellFormed(read) && WellFormed(trials) && Render(read) + rest == Render(trials) + more
    requires |read| <= |trials|
    ensures read <= trials && Render(trials[|read|..]) + more == rest
    decreases |read|
  {
    hide RenderOne, Render;
    if read == [] {
      NothingRead(rest);
      assert Render(read) + rest == rest && trials[0..] == trials;
    } else {
      RenderHead(read, rest);
      RenderHead(trials, more);
      SameHead(read[0], Render(read[1..]) + rest, trials[0], Render(trials[1..]) + more);
      SamePrefix(read[1..], rest, trials[1..], more);
      assert trials[1..][|read| - 1..] == trials[|read|..];
    }
  }

  lemma {:induction false} NonEmptyRender(trials: seq<Trial>)
    ensures trials != [] ==> Render(trials) != ""
  {
  }

  /** Rendering is injective on well-formed trials. */
  lemma {:induction false} UniqueReading(a: seq<Trial>, b: seq<Trial>)
    requires WellFormed(a) && WellFormed(b) && Render(a) == Render(b)
    ensures a == b
  {
    hide Render;
    assert Render(a) + "" == Render(b) + "";
    if |a| <= |b| {
      SamePrefix(a, "", b, "");
      NonEmptyRender(b[|a|..]);
    } else {
      SamePrefix(b, "", a, "");
      NonEmptyRender(a[|b|..]);
    }
  }

  lemma {:induction false} RenderSnoc(trials: seq<Trial>, t: Trial)
    ensures Render(trials + [t]) == Render(trials) + RenderOne(t)
    decreases |trials|
  {
    if trials == [] {
      assert [] + [t] == [t] && [t][1..] == [];
    } else {
      RenderSnoc(trials[1..], t);
      assert (trials + [t])[1..] == trials[1..] + [t];
    }
  }

  /** What a trial string is: key, slash, value, slash, one trial after the other. */
  lemma {:induction false} RenderLaws(a: seq<Trial>, b: seq<Trial>, key: string, value: string)
    ensures Render([Trial(key, value)]) == key + "/" + value + "/"
    ensures Render(a + b) == Render(a) + Render(b)
    decreases |b|
  {
    if b == [] {
      RenderSnoc([], Trial(key, value));
      assert [] + [Trial(key, value)] == [Trial(key, value)];
      assert a + b == a && Render(a) + "" == Render(a);
    } else {
      var n := |b| - 1;
      RenderLaws(a, b[..n], key, value);
      RenderSnoc(a + b[..n], b[n]);
      RenderSnoc(b[..n], b[n]);
      assert a + b == (a + b[..n]) + [b[n]] && b == b[..n] + [b[n]];
    }
  }

  // ---------- the parser ----------

  /** Behind `read` comes another trial: the two searches find its ends. */
  lemma {:induction false} NextTrial(s: string, from: nat, t: Trial, more: string)
    requires from <= |s| && WellFormedPart(t.key) && WellFormedPart(t.value) && s[from..] == RenderOne(t) + more
    ensures !SearchFails(s, from) && from < |s|
  {
    hide FindSlash;
    assert s[from..] == t.key + "/" + (t.value + "/" + more);
    SlashAfterPart(s, from, t.key, t.value + "/" + more);
    SlashAfterPart(s, from + |t.key| + 1, t.value, more);
  }

  /** The searches do not find a non-empty key and value. */
  predicate SearchFails(s: string, from: nat)
    requires from <= |s|
  {
    var p := FindSlash(s, from);
    p == |s| || p == from || p + 1 == |s| || FindSlash(s, p + 1) == |s| || FindSlash(s, p + 1) == p + 1
  }

  /** Where the searches fail no longer reading of the string's front goes on. */
  lemma {:induction false} NoLongerReading(s: string, from: nat, read: seq<Trial>, trials: seq<Trial>, more: string)
    requires from <= |s| && WellFormed(read) && Render(read) == s[..from] && SearchFails(s, from)
    requires WellFormed(trials) && s == Render(trials) + more
    ensures |trials| <= |read|
  {
    hide FindSlash, SearchFails, RenderOne;
    if |trials| > |read| {
      assert s == s[..from] + s[from..];
      SamePrefix(read, s[from..], trials, more);
      var tail := trials[|read|..];
      assert tail[0] == trials[|read|];
      assert s[from..] == RenderOne(tail[0]) + (Render(tail[1..]) + more);
      NextTrial(s, from, tail[0], Render(tail[1..]) + more);
    }
  }

  /** Where the searches fail before the end, the string is not a trial string. */
  lemma {:induction false} NotTrials(s: string, from: nat, read: seq<Trial>)
    requires from < |s| && WellFormed(read) && Render(read) == s[..from]
    ensures SearchFails(s, from) ==> !IsTrialString(s)
  {
    hide FindSlash, SearchFails;
    if SearchFails(s, from) && IsTrialString(s) {
      var trials :| WellFormed(trials) && s == Render(trials);
      assert s == Render(trials) + "";
      NoLongerReading(s, from, read, trials, "");
      assert Render(trials) + "" == Render(read) + s[from..];
      SamePrefix(trials, "", read, s[from..]);
    }
  }

  /** What each check says about the two searches. */
  predicate Found(check: Check, s: string, from: nat)
    requires from <= |s|
  {
    var p := FindSlash(s, from);
    match check
    case MissingKeySeparator => from < |s| && p == |s|
    case EmptyKey => from < |s| && p == from
    case MissingValue => from < p < |s| && p + 1 == |s|
    case MissingTerminator => from < p < |s| - 1 && FindSlash(s, p + 1) == |s|
    case EmptyValue => from < p < |s| - 1 && FindSlash(s, p + 1) == p + 1
    case NotConsumed => false
  }

  lemma {:induction false} BlamesFound(s: string, from: nat, check: Check)
    requires from <= |s| && Blames(check, s[from..])
    ensures Found(check, s, from) && SearchFails(s, from) && from < |s|
  {
    var rest := s[from..];
    match check
    case MissingKeySeparator =>
      assert forall i :: from <= i < |s| ==> s[i] == rest[i - from];
    case EmptyKey =>
      assert s[from] == rest[0];
    case MissingValue =>
      var key :| WellFormedPart(key) && rest == key + "/";
      assert rest == key + "/" + "";
      SlashAfterPart(s, from, key, "");
    case MissingTerminator =>
      var key, value :| WellFormedPart(key) && WellFormedPart(value) && rest == key + "/" + value;
      SlashAfterPart(s, from, key, value);
      var p := from + |key|;
      assert forall i :: p < i < |s| ==> s[i] == s[p + 1..][i - p - 1];
    case EmptyValue =>
      var key, more :| WellFormedPart(key) && rest == key + "//" + more;
      assert rest == key + "/" + ("/" + more);
      SlashAfterPart(s, from, key, "/" + more);
      assert s[from + |key| + 1] == s[from + |key| + 1..][0];
  }

  lemma {:induction false} DiesFacts(s: string, read: seq<Trial>, check: Check)
    requires DiesAfter(s, read, check)
    ensures var from := |Render(read)|;
      && WellFormed(read) && from < |s| && Render(read) == s[..from] && s == Render(read) + s[from..]
      && Found(check, s, from) && SearchFails(s, from)
  {
    hide FindSlash, SearchFails, Found, Blames, Render, WellFormed;
    BlamesFound(s, |Render(read)|, check);
  }

  /** A string dies behind one reading, of one check, and is then no trial string. */
  lemma {:induction false} DiesOnce(s: string, a: seq<Trial>, c: Check, b: seq<Trial>, d: Check)
    requires DiesAfter(s, a, c)
    ensures !IsTrialString(s)
    ensures DiesAfter(s, b, d) ==> a == b && c == d
  {
    hide FindSlash, SearchFails, DiesAfter, Render, WellFormed, IsTrialString;
    DiesFacts(s, a, c);
    var from := |Render(a)|;
    NotTrials(s, from, a);
    if DiesAfter(s, b, d) {
      DiesFacts(s, b, d);
      var to := |Render(b)|;
      NoLongerReading(s, from, a, b, s[to..]);
      NoLongerReading(s, to, b, a, s[from..]);
      SamePrefix(a, s[from..], b, s[to..]);
    }
  }

  /** One round of the loop: the two fields found make a trial. */
  lemma {:induction false} ReadTrial(s: string, from: nat, read: seq<Trial>, p: nat, q: nat)
    requires from < p < |s| && p + 1 < q < |s| && p == FindSlash(s, from) && q == FindSlash(s, p + 1)
    requires WellFormed(read) && Render(read) == s[..from]
    ensures var t := Trial(s[from..p], s[p + 1..q]);
      WellFormed(read + [t]) && Render(read + [t]) == s[..q + 1]
  {
    hide Render, FindSlash;
    var t := Trial(s[from..p], s[p + 1..q]);
    RenderSnoc(read, t);
    NoSlash(s, from, p);
    NoSlash(s, p + 1, q);
    assert s[..q + 1] == s[..from] + s[from..q + 1];
    assert s[from..q + 1] == RenderOne(t);
  }

  lemma {:induction false} NoSlash(s: string, from: nat, to: nat)
    requires from < to <= |s| && forall i :: from <= i < to ==> s[i] != '/'
    ensures WellFormedPart(s[from..to])
  {
  }

  /**
   The parser passes all its checks exactly on the trial strings; its result then gives each key
   the first value it has in the one reading of the string. On any other string it stops behind the
   complete trials with the one check that names what is wrong there, and that is never the last one.
   */
  method InsertIntoMap(s: string) returns (r: Outcome)
    ensures r.Passed? <==> IsTrialString(s)
    ensures forall trials :: WellFormed(trials) && s == Render(trials) ==> r == Passed(FirstWins(trials))
    ensures forall check :: r == Died(check) <==> Dies(s, check)
  {
    hide Render, FindSlash, FirstWins, WellFormed, DiesAfter, IsTrialString;
    var fieldStart := 0;
    var keyValueMap: map<string, string> := map[];
    ghost var read: seq<Trial> := [];
    NothingRead(s);
    while fieldStart < |s|
      invariant fieldStart <= |s| && WellFormed(read) && Render(read) == s[..fieldStart]
      invariant keyValueMap == FirstWins(read)
    {
      NotTrials(s, fieldStart, read);
      var separatorPos := FindSlash(s, fieldStart);
      if separatorPos == |s| {
        DiedMissingKeySeparator(s, fieldStart, read);
        DiesWith(s, read, MissingKeySeparator);
        return Died(MissingKeySeparator);
      }
      if separatorPos <= fieldStart {
        DiedEmptyKey(s, fieldStart, read);
        DiesWith(s, read, EmptyKey);
        return Died(EmptyKey);
      }
      var key := s[fieldStart..separatorPos];
      ghost var from := fieldStart;
      fieldStart := separatorPos + 1;
      if fieldStart >= |s| {
        DiedMissingValue(s, from, read);
        DiesWith(s, read, MissingValue);
        return Died(MissingValue);
      }
      separatorPos := FindSlash(s, fieldStart);
      if separatorPos == |s| {
        DiedMissingTerminator(s, from, read);
        DiesWith(s, read, MissingTerminator);
        return Died(MissingTerminator);
      }
      if separatorPos <= fieldStart {
        DiedEmptyValue(s, from, read);
        DiesWith(s, read, EmptyValue);
        return Died(EmptyValue);
      }
      var value := s[fieldStart..separatorPos];
      ReadTrial(s, from, read, fieldStart - 1, separatorPos);
      fieldStart := separatorPos + 1;
      EmplaceStep(read, Trial(key, value));
      read := read + [Trial(key, value)];
      keyValueMap := if key in keyValueMap then keyValueMap else keyValueMap[key := value];
    }
    if fieldStart != |s| {
      return Died(NotConsumed);
    }
    assert s[..fieldStart] == s;
    OnlyReading(s, read);
    NeverDies(s);
    return Passed(keyValueMap);
  }

  lemma {:induction false} DiesWith(s: string, read: seq<Trial>, check: Check)
    requires DiesAfter(s, read, check)
    ensures !IsTrialString(s)
    ensures forall trials :: !(WellFormed(trials) && s == Render(trials))
    ensures forall c :: Dies(s, c) <==> c == check
  {
    hide DiesAfter, WellFormed, Render;
    DiesOnce(s, read, check, read, check);
    forall c, b | DiesAfter(s, b, c) ensures c == check {
      DiesOnce(s, read, check, b, c);
    }
  }

  lemma {:induction false} NeverDies(s: string)
    requires IsTrialString(s)
    ensures forall check :: !Dies(s, check)
  {
    hide DiesAfter, IsTrialString;
    forall read, check ensures !DiesAfter(s, read, check) {
      if DiesAfter(s, read, check) {
        DiesOnce(s, read, check, read, check);
      }
    }
  }

  lemma {:induction false} DiedMissingKeySeparator(s: string, from: nat, read: seq<Trial>)
    requires from < |s| && WellFormed(read) && Render(read) == s[..from] && FindSlash(s, from) == |s|
    ensures DiesAfter(s, read, MissingKeySeparator)
  {
    assert forall i :: 0 <= i < |s[from..]| ==> s[from..][i] == s[from + i];
  }

  lemma {:induction false} DiedEmptyKey(s: string, from: nat, read: seq<Trial>)
    requires from < |s| && WellFormed(read) && Render(read) == s[..from] && FindSlash(s, from) == from
    ensures DiesAfter(s, read, EmptyKey)
  {
  }

  /** The key that ends at the first separator. */
  lemma {:induction false} KeyFound(s: string, from: nat)
    requires from < |s| && from < FindSlash(s, from) < |s|
    ensures var p := FindSlash(s, from); WellFormedPart(s[from..p]) && s[from..] == s[from..p] + "/" + s[p + 1..]
  {
    var p := FindSlash(s, from);
    assert s[from..] == s[from..p] + [s[p]] + s[p + 1..];
  }

  lemma {:induction false} DiedMissingValue(s: string, from: nat, read: seq<Trial>)
    requires from < |s| && WellFormed(read) && Render(read) == s[..from]
    requires from < FindSlash(s, from) == |s| - 1
    ensures DiesAfter(s, read, MissingValue)
  {
    KeyFound(s, from);
    var key := s[from..|s| - 1];
    assert s[from..] == key + "/";
  }

  lemma {:induction false} DiedMissingTerminator(s: string, from: nat, read: seq<Trial>)
    requires from < |s| && WellFormed(read) && Render(read) == s[..from]
    requires from < FindSlash(s, from) < |s| - 1 && FindSlash(s, FindSlash(s, from) + 1) == |s|
    ensures DiesAfter(s, read, MissingTerminator)
  {
    KeyFound(s, from);
    var p := FindSlash(s, from);
    assert WellFormedPart(s[p + 1..]);
  }

  lemma {:induction false} DiedEmptyValue(s: string, from: nat, read: seq<Trial>)
    requires from < |s| && WellFormed(read) && Render(read) == s[..from]
    requires from < FindSlash(s, from) < |s| - 1 && FindSlash(s, FindSlash(s, from) + 1) == FindSlash(s, from) + 1
    ensures DiesAfter(s, read, EmptyValue)
  {
    KeyFound(s, from);
    var p := FindSlash(s, from);
    var key, more := s[from..p], s[p + 2..];
    assert s[p + 1..] == [s[p + 1]] + more;
    assert s[from..] == key + "//" + more;
  }

  lemma {:induction false} OnlyReading(s: string, read: seq<Trial>)
    requires WellFormed(read) && s == Render(read)
    ensures IsTrialString(s)
    ensures forall trials :: WellFormed(trials) && s == Render(trials) ==> trials == read
  {
    forall trials | WellFormed(trials) && s == Render(trials) ensures trials == read {
      UniqueReading(trials, read);
    }
  }

  lemma {:induction false} NothingRead(s: string)
    ensures WellFormed([]) && Render([]) == s[..0] && FirstWins([]) == map[]
  {
  }

  lemma {:induction false} EmplaceStep(read: seq<Trial>, t: Trial)
    ensures var m := FirstWins(read);
      FirstWins(read + [t]) == if t.key in m then m else m[t.key := t.value]
  {
    assert (read + [t])[..|read|] == read;
  }

  /** Two keys, and a repeated key. */
  method PassedExamples() returns (two: Outcome, repeated: Outcome)
    ensures two == Passed(map["a" := "b", "c" := "d"]) && repeated == Passed(map["a" := "b"])
  {
    hide Render, FirstWins, WellFormed, IsTrialString, Dies;
    two := InsertIntoMap("a/b/c/d/");
    TwoTrials(Trial("a", "b"), Trial("c", "d"));
    assert "a" + "/" + "b" + "/" + ("c" + "/" + "d" + "/") == "a/b/c/d/";
    repeated := InsertIntoMap("a/b/a/c/");
    TwoTrials(Trial("a", "b"), Trial("a", "c"));
    assert "a" + "/" + "b" + "/" + ("a" + "/" + "c" + "/") == "a/b/a/c/";
  }

  /** One string for each check that can fail. */
  method DiedExamples() returns (r: seq<Outcome>)
    ensures r == [Died(MissingKeySeparator), Died(EmptyKey), Died(MissingValue), Died(MissingTerminator),
                  Died(EmptyValue)]
  {
    hide Render, FirstWins, WellFormed, IsTrialString, Dies, Blames;
    BlamedExamples();
    var a := InsertIntoMap("a");
    DiesAtOnce("a", MissingKeySeparator);
    var b := InsertIntoMap("/a/");
    DiesAtOnce("/a/", EmptyKey);
    var c := InsertIntoMap("a/");
    DiesAtOnce("a/", MissingValue);
    var d := InsertIntoMap("a/b");
    DiesAtOnce("a/b", MissingTerminator);
    var e := InsertIntoMap("a//");
    DiesAtOnce("a//", EmptyValue);
    r := [a, b, c, d, e];
  }

  lemma {:induction false} BlamedExamples()
    ensures Blames(MissingKeySeparator, "a") && Blames(EmptyKey, "/a/") && Blames(MissingValue, "a/")
    ensures Blames(MissingTerminator, "a/b") && Blames(EmptyValue, "a//")
  {
    assert WellFormedPart("a") && WellFormedPart("b");
    assert "a/" == "a" + "/";
    assert "a/b" == "a" + "/" + "b";
    assert "a//" == "a" + "//" + "";
  }

  lemma {:induction false} DiesAtOnce(s: string, check: Check)
    requires Blames(check, s)
    ensures Dies(s, check)
  {
    NothingRead(s);
    assert s[0..] == s;
    assert DiesAfter(s, [], check);
  }

  lemma {:induction false} TwoTrials(t: Trial, u: Trial)
    requires WellFormedPart(t.key) && WellFormedPart(t.value) && WellFormedPart(u.key) && WellFormedPart(u.value)
    ensures WellFormed([t, u]) && Render([t, u]) == t.key + "/" + t.value + "/" + (u.key + "/" + u.value + "/")
    ensures FirstWins([t, u])
            == if t.key == u.key then map[t.key := t.value] else map[t.key := t.value, u.key := u.value]
  {
    hide Render, FirstWins;
    assert [t, u] == [t] + [u] && [t] == [] + [t];
    RenderSnoc([], t);
    RenderSnoc([t], u);
    NothingRead("");
    EmplaceStep([], t);
    EmplaceStep([t], u);
  }
}
