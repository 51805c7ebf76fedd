/** Synthesized workflow step names: `_normalize_workflow_steps` and the uniqueness check of `WorkflowDefinition`. */
module StepNames {
  import opened Wrappers
  import Text

  /** A value of a raw step dictionary: a string, or anything else. */
  datatype Value = Str(text: string) | Opaque(id: int)

  /** An element of the raw `steps` list, which need not be a dictionary. */
  datatype Raw = Dict(fields: map<string, Value>) | NotDict(value: Value)

  function Digit(n: nat): char
    requires n < 10
  {
    (n + '0' as int) as char
  }

  /** `str(n)`. */
  function Decimal(n: nat): string {
    if n < 10 then [Digit(n)] else Decimal(n / 10) + [Digit(n % 10)]
  }

  /** `<action>-<index>`, the index counted from one. */
  function SynthesizedName(action: string, index: nat): string {
    Text.Normalize(action) + "-" + Decimal(index + 1)
  }

  function Renamed(step: map<string, Value>): map<string, Value> {
    if "merge_strategy" !in step && "payload_transform" in step
    then (step - {"payload_transform"})["merge_strategy" := step["payload_transform"]] else step
  }

  function Named(step: map<string, Value>, index: nat): map<string, Value> {
    if "name" !in step && "action" in step && step["action"].Str?
    then step["name" := Str(SynthesizedName(step["action"].text, index))] else step
  }

  function NormalizedStep(step: Raw, index: nat): Raw {
    if step.NotDict? then step else Dict(Named(Renamed(step.fields), index))
  }

  function Normalized(steps: seq<Raw>): seq<Raw> {
    seq(|steps|, i requires 0 <= i < |steps| => NormalizedStep(steps[i], i))
  }

  method NormalizeWorkflowSteps(stepsRaw: seq<Raw>) returns (normalizedSteps: seq<Raw>)
    ensures normalizedSteps == Normalized(stepsRaw)
  {
    normalizedSteps := [];
    for index := 0 to |stepsRaw|
      invariant normalizedSteps == Normalized(stepsRaw)[..index]
    {
      if stepsRaw[index].NotDict? {
        normalizedSteps := normalizedSteps + [stepsRaw[index]];
      } else {
        var step := stepsRaw[index].fields;
        if "merge_strategy" !in step && "payload_transform" in step {
          var transform := step["payload_transform"];
          step := step - {"payload_transform"};
          step := step["merge_strategy" := transform];
        }
        if "name" !in step && "action" in step && step["action"].Str? {
          step := step["name" := Str(SynthesizedName(step["action"].text, index))];
        }
        normalizedSteps := normalizedSteps + [Dict(step)];
      }
    }
  }

  /** Normalizing a normalized list changes nothing. */
  lemma NormalizationIdempotent(steps: seq<Raw>)
    ensures Normalized(Normalized(steps)) == Normalized(steps)
  {
    forall i | 0 <= i < |steps| ensures Normalized(Normalized(steps))[i] == Normalized(steps)[i] {
      assert Normalized(steps)[i] == NormalizedStep(steps[i], i);
    }
  }

  /** Normalization moves the legacy key `payload_transform` to `merge_strategy` unless that is given, and keeps all other keys. */
  lemma FieldsAfter(steps: seq<Raw>, i: nat, key: string)
    requires i < |steps| && steps[i].Dict?
    ensures var f, r := steps[i].fields, Normalized(steps)[i];
            && r.Dict?
            && var g := r.fields;
               && (key !in {"name", "merge_strategy", "payload_transform"} ==> (key in g <==> key in f) && (key in f ==> g[key] == f[key]))
               && ("name" in f ==> "name" in g && g["name"] == f["name"])
               && (if "merge_strategy" in f || "payload_transform" !in f then
                     && ("merge_strategy" in g <==> "merge_strategy" in f) && ("merge_strategy" in f ==> g["merge_strategy"] == f["merge_strategy"])
                     && ("payload_transform" in g <==> "payload_transform" in f)
                     && ("payload_transform" in f ==> g["payload_transform"] == f["payload_transform"])
                   else "merge_strategy" in g && g["merge_strategy"] == f["payload_transform"] && "payload_transform" !in g)
  {
  }

  // ---------- synthesized names never collide ----------

  lemma {:induction false} DecimalDigits(n: nat)
    ensures Decimal(n) != "" && forall i :: 0 <= i < |Decimal(n)| ==> '0' <= Decimal(n)[i] <= '9'
  {
    if n >= 10 { DecimalDigits(n / 10); }
  }

  /** The number that a numeral stands for. */
  function NumberOf(digits: string): int {
    if digits == "" then 0 else 10 * NumberOf(digits[..|digits| - 1]) + (digits[|digits| - 1] as int - '0' as int)
  }

  /** Numerals read back as the number written, and do not start with a zero. */
  lemma {:induction false} DecimalReadsBack(n: nat)
    ensures NumberOf(Decimal(n)) == n
    ensures n > 0 ==> Decimal(n)[0] != '0'
  {
    if n >= 10 {
      DecimalReadsBack(n / 10);
      DecimalDigits(n / 10);
      assert Decimal(n)[..|Decimal(n)| - 1] == Decimal(n / 10);
    } else {
      assert [Digit(n)][..0] == [];
    }
  }

  /** The text after the last dash is the index, however many dashes and digits the action has. */
  lemma LastDashSplits(x: string, a: string, y: string, b: string)
    requires x + "-" + a == y + "-" + b && '-' !in a && '-' !in b
    ensures x == y && a == b
  {
    assert (x + "-" + a)[|y|] == '-' by { assert (y + "-" + b)[|y|] == '-'; }
    assert (y + "-" + b)[|x|] == '-' by { assert (x + "-" + a)[|x|] == '-'; }
    DashIsAt(x, a, |y|);
    DashIsAt(y, b, |x|);
    assert x == (x + "-" + a)[..|x|] && y == (y + "-" + b)[..|y|];
    assert a == (x + "-" + a)[|x| + 1..] && b == (y + "-" + b)[|y| + 1..];
  }

  lemma DashIsAt(x: string, a: string, k: int)
    requires '-' !in a && 0 <= k < |x + "-" + a| && (x + "-" + a)[k] == '-'
    ensures k <= |x|
  {
  }

  lemma SynthesizedNamesDiffer(a: string, i: nat, b: string, j: nat)
    ensures SynthesizedName(a, i) == SynthesizedName(b, j) ==> i == j && Text.Normalize(a) == Text.Normalize(b)
  {
    DecimalDigits(i + 1);
    DecimalDigits(j + 1);
    if SynthesizedName(a, i) == SynthesizedName(b, j) {
      LastDashSplits(Text.Normalize(a), Decimal(i + 1), Text.Normalize(b), Decimal(j + 1));
      DecimalReadsBack(i + 1);
      DecimalReadsBack(j + 1);
    }
  }

  /** The uniqueness check compares stripped, lower-case names; a synthesized name is already in that form. */
  lemma SynthesizedNameIsNormal(action: string, index: nat)
    ensures Text.Normalize(SynthesizedName(action, index)) == SynthesizedName(action, index)
  {
    var name := SynthesizedName(action, index);
    Text.NormalizeIdempotent(action);
    Text.StripStrips(Text.Normalize(action));
    DecimalDigits(index + 1);
    assert Text.Stripped(name);
    Text.StripStrips(name);
    assert forall i :: 0 <= i < |Text.Normalize(action)| ==> Text.LowerChar(name[i]) == name[i] by {
      assert Text.Lower(Text.Normalize(action)) == Text.Normalize(action);
      assert forall i :: 0 <= i < |Text.Normalize(action)| ==> name[i] == Text.Normalize(action)[i];
    }
    assert Text.Lower(name) == name;
  }

  // ---------- the uniqueness check on the normalized list ----------

  /** The name of a step, if it is a dictionary with a string under "name". */
  function NameField(step: Raw): Option<string> {
    if step.Dict? && "name" in step.fields && step.fields["name"].Str? then Some(step.fields["name"].text) else None
  }

  /** The validator: no two names are equal after `strip().lower()`. */
  predicate NamesUnique(steps: seq<Raw>) {
    forall i, j :: 0 <= i < j < |steps| && NameField(steps[i]).Some? && NameField(steps[j]).Some?
                   ==> Text.Normalize(NameField(steps[i]).value) != Text.Normalize(NameField(steps[j]).value)
  }

  /** A dictionary without a name but with a string action: exactly the steps that get a synthesized name. */
  predicate Unnamed(step: Raw) {
    step.Dict? && "name" !in step.fields && "action" in step.fields && step.fields["action"].Str?
  }

  /** Normalization writes a name into unnamed steps and leaves every name that is there. */
  lemma NameAfter(steps: seq<Raw>, i: nat)
    requires i < |steps|
    ensures NameField(Normalized(steps)[i])
         == if Unnamed(steps[i]) then Some(SynthesizedName(steps[i].fields["action"].text, i)) else NameField(steps[i])
  {
  }

  /** The explicit name at `i`, if any, differs from the name that the normalized list has at `j`. */
  predicate NoClash(steps: seq<Raw>, i: nat, j: nat)
    requires i < |steps| && j < |steps|
  {
    var name := NameField(Normalized(steps)[j]);
    i != j && NameField(steps[i]).Some? && name.Some? ==> Text.Normalize(NameField(steps[i]).value) != Text.Normalize(name.value)
  }

  lemma SynthesizedNeverClash(steps: seq<Raw>, i: nat, j: nat)
    requires i < j < |steps| && Unnamed(steps[i]) && Unnamed(steps[j])
    ensures Text.Normalize(NameField(Normalized(steps)[i]).value) != Text.Normalize(NameField(Normalized(steps)[j]).value)
  {
    var a, b := steps[i].fields["action"].text, steps[j].fields["action"].text;
    NameAfter(steps, i);
    NameAfter(steps, j);
    SynthesizedNameIsNormal(a, i);
    SynthesizedNameIsNormal(b, j);
    SynthesizedNamesDiffer(a, i, b, j);
  }

  lemma NoClashMeansDifferent(steps: seq<Raw>, i: nat, j: nat)
    requires i < j < |steps| && NoClash(steps, i, j) && NoClash(steps, j, i)
    ensures var x, y := NameField(Normalized(steps)[i]), NameField(Normalized(steps)[j]);
            x.Some? && y.Some? ==> Text.Normalize(x.value) != Text.Normalize(y.value)
  {
    NameAfter(steps, i);
    NameAfter(steps, j);
    if Unnamed(steps[i]) && Unnamed(steps[j]) { SynthesizedNeverClash(steps, i, j); }
  }

  /** The check on the normalized list fails only on account of a name somebody wrote: synthesized names never clash with each other. */
  lemma UniqueIffExplicitNamesAre(steps: seq<Raw>)
    ensures NamesUnique(Normalized(steps)) <==> forall i: nat, j: nat :: i < |steps| && j < |steps| ==> NoClash(steps, i, j)
  {
    if forall i: nat, j: nat :: i < |steps| && j < |steps| ==> NoClash(steps, i, j) {
      forall i: nat, j: nat | i < j < |steps|
        ensures var x, y := NameField(Normalized(steps)[i]), NameField(Normalized(steps)[j]);
                x.Some? && y.Some? ==> Text.Normalize(x.value) != Text.Normalize(y.value)
      {
        NoClashMeansDifferent(steps, i, j);
      }
    }
    if NamesUnique(Normalized(steps)) {
      forall i: nat, j: nat | i < |steps| && j < |steps| ensures NoClash(steps, i, j) {
        NameAfter(steps, i);
        if i != j { UniqueSeparates(Normalized(steps), i, j); }
      }
    }
  }

  lemma UniqueSeparates(steps: seq<Raw>, i: nat, j: nat)
    requires NamesUnique(steps) && i < |steps| && j < |steps| && i != j
    ensures NameField(steps[i]).Some? && NameField(steps[j]).Some?
            ==> Text.Normalize(NameField(steps[i]).value) != Text.Normalize(NameField(steps[j]).value)
  {
    if j < i { UniqueSeparates(steps, j, i); }
  }

  /** Unnamed steps all get a name, and the check accepts the list. */
  lemma UnnamedStepsAccepted(steps: seq<Raw>)
    requires forall i :: 0 <= i < |steps| ==> Unnamed(steps[i])
    ensures forall i :: 0 <= i < |steps| ==> NameField(Normalized(steps)[i]).Some?
    ensures NamesUnique(Normalized(steps))
  {
    forall i: nat | i < |steps| ensures NameField(Normalized(steps)[i]).Some? && NameField(steps[i]).None? {
      NameAfter(steps, i);
    }
    UniqueIffExplicitNamesAre(steps);
  }
}
