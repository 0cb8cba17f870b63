/**
 * The error dictionary `Model.validate` builds: one list of messages per
 * field name, filled in field order, and `None` when no message was recorded.
 */
module ErrorReport {
  import opened Wrappers

  type Errors = map<string, seq<string>>

  /** `error_dict.setdefault(name, []); error_dict[name].append(message)`, when there is a message. */
  function Record(errors: Errors, name: string, message: Option<string>): Errors {
    if message.None? then errors
    else errors[name := (if name in errors then errors[name] else []) + [message.value]]
  }

  function Messages(message: Option<string>): seq<string> {
    if message.None? then [] else [message.value]
  }

  /**
   * The dictionary after visiting `names` in order, where `own[i]` is the
   * message `field.validate()` raised for `names[i]` and `hook[i]` the one
   * its `validate_<name>` hook raised.
   */
  function Collect(names: seq<string>, own: seq<Option<string>>, hook: seq<Option<string>>): Errors
    requires |own| == |names| && |hook| == |names|
  {
    if names == [] then map[]
    else
      var n := |names| - 1;
      Record(Record(Collect(names[..n], own[..n], hook[..n]), names[n], own[n]), names[n], hook[n])
  }

  /** Visiting one more name records its two messages on top of the dictionary so far. */
  lemma CollectStep(names: seq<string>, own: seq<Option<string>>, hook: seq<Option<string>>, name: string, o: Option<string>, h: Option<string>)
    requires |own| == |names| && |hook| == |names|
    ensures Collect(names + [name], own + [o], hook + [h]) == Record(Record(Collect(names, own, hook), name, o), name, h)
  {
    assert (names + [name])[..|names|] == names;
    assert (own + [o])[..|names|] == own;
    assert (hook + [h])[..|names|] == hook;
  }

  /** `error_dict or None`. */
  function Report(errors: Errors): (r: Option<Errors>)
    ensures r.None? <==> errors == map[]
  {
    if errors == map[] then None else Some(errors)
  }

  /** A name is in the dictionary exactly when one of its visits recorded a message. */
  lemma {:induction false} CollectKeys(names: seq<string>, own: seq<Option<string>>, hook: seq<Option<string>>, k: string)
    requires |own| == |names| && |hook| == |names|
    ensures k in Collect(names, own, hook) <==>
      exists i :: 0 <= i < |names| && names[i] == k && (own[i].Some? || hook[i].Some?)
  {
    if names != [] {
      var n := |names| - 1;
      CollectKeys(names[..n], own[..n], hook[..n], k);
      if k in Collect(names[..n], own[..n], hook[..n]) {
        var i :| 0 <= i < n && names[..n][i] == k && (own[..n][i].Some? || hook[..n][i].Some?);
        assert names[i] == k && (own[i].Some? || hook[i].Some?);
      }
      if exists i :: 0 <= i < |names| && names[i] == k && (own[i].Some? || hook[i].Some?) {
        var i :| 0 <= i < |names| && names[i] == k && (own[i].Some? || hook[i].Some?);
        if i < n {
          assert names[..n][i] == k && (own[..n][i].Some? || hook[..n][i].Some?);
        }
      }
    }
  }

  /** With unique names, a field's messages are its own message, then its hook's, in that order. */
  lemma {:induction false} CollectAt(names: seq<string>, own: seq<Option<string>>, hook: seq<Option<string>>, i: nat)
    requires |own| == |names| && |hook| == |names| && i < |names|
    requires forall a, b :: 0 <= a < b < |names| ==> names[a] != names[b]
    ensures names[i] in Collect(names, own, hook) <==> own[i].Some? || hook[i].Some?
    ensures names[i] in Collect(names, own, hook) ==>
      Collect(names, own, hook)[names[i]] == Messages(own[i]) + Messages(hook[i])
  {
    var n := |names| - 1;
    var prev := Collect(names[..n], own[..n], hook[..n]);
    if i == n {
      CollectKeys(names[..n], own[..n], hook[..n], names[n]);
      assert names[n] !in prev;
    } else {
      CollectAt(names[..n], own[..n], hook[..n], i);
      assert names[..n][i] == names[i] && own[..n][i] == own[i] && hook[..n][i] == hook[i];
      assert names[n] != names[i];
    }
  }

  /** `validate()` returns `None` exactly when no field and no hook raised a message. */
  lemma ReportNone(names: seq<string>, own: seq<Option<string>>, hook: seq<Option<string>>)
    requires |own| == |names| && |hook| == |names|
    ensures Report(Collect(names, own, hook)).None? <==>
      forall i :: 0 <= i < |names| ==> own[i].None? && hook[i].None?
  {
    var e := Collect(names, own, hook);
    if e != map[] {
      var k :| k in e;
      CollectKeys(names, own, hook, k);
    } else {
      forall i | 0 <= i < |names|
        ensures own[i].None? && hook[i].None?
      {
        CollectKeys(names, own, hook, names[i]);
      }
    }
  }
}
