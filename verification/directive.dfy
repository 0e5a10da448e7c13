/** The CLEANRUV task request: the replica id read off a ghost record and the modify request
    that asks the server to purge that replica from every RUV. */
module Directive {
  import opened Wrappers
  import opened PyStr
  import Dn

  /** Task directive naming the replica to clean; the replica id follows it directly. */
  const CleanRuvPrefix := "CLEANRUV"

  /** Attribute of the replica configuration entry that receives the directive. */
  const TaskAttribute := "nsds5task"

  /** The replica id as the code reads it: the second space-separated token of the record
      without its last character (the closing brace in `{replica 3} ...`). A record without
      a space has no second token, and reading it fails. */
  function ReplicaIdField(ruv: string): (id: Option<string>)
    ensures id.Some? <==> ' ' in ruv
    ensures id.Some? ==> ' ' !in id.value && |id.value| < |ruv|
  {
    var tokens := Split(ruv, ' ');
    if |tokens| < 2 then None
    else
      SplitJoin(ruv, ' ');
      JoinLength(tokens, ' ');
      Some(DropLast(tokens[1]))
  }

  /** The second of several joined tokens is shorter than the joined text. */
  lemma JoinLength(tokens: seq<string>, sep: char)
    requires |tokens| >= 2
    ensures |tokens[1]| < |Join(tokens, sep)|
  {
    var rest := Join(tokens[1..], sep);
    assert |tokens[1]| <= |rest|;
  }

  /** Whatever the record looks like, the field read is its second space-separated token
      without that token's last character. */
  lemma ReplicaIdOfTokens(ruv: string, first: string, second: string, tail: string)
    requires ruv == first + " " + second + tail
    requires ' ' !in first && ' ' !in second
    requires |tail| == 0 || tail[0] == ' '
    ensures ReplicaIdField(ruv) == Some(DropLast(second))
  {
    assert ruv == first + [' '] + (second + tail);
    SplitAfter(first, second + tail, ' ');
    FirstToken(second, tail);
  }

  /** A space-free text followed by nothing or by a space is the first token. */
  lemma FirstToken(a: string, tail: string)
    requires ' ' !in a
    requires |tail| == 0 || tail[0] == ' '
    ensures |Split(a + tail, ' ')| > 0 && Split(a + tail, ' ')[0] == a
  {
    if |tail| == 0 {
      assert a + tail == a;
      SplitPlain(a, ' ');
    } else {
      assert a + tail == a + [' '] + tail[1..];
      SplitAfter(a, tail[1..], ' ');
    }
  }

  /** For a record of the usual shape `{replica <id>}` followed by nothing or by a space and
      the rest, the field read is exactly the id. */
  lemma ReplicaIdOfRecord(ruv: string, id: string, tail: string)
    requires ruv == "{replica " + id + "}" + tail
    requires ' ' !in id
    requires |tail| == 0 || tail[0] == ' '
    ensures ReplicaIdField(ruv) == Some(id)
  {
    var head, idBrace := "{replica", id + "}";
    assert ' ' !in head && ' ' !in idBrace;
    assert ruv == head + " " + idBrace + tail;
    ReplicaIdOfTokens(ruv, head, idBrace, tail);
    assert DropLast(idBrace) == id;
  }

  /** The field is cut by position, not by the brace: with a space before the closing brace
      the id loses its last digit. */
  lemma ReplicaIdIsPositional(ruv: string)
    requires ruv == "{replica " + "12" + " }"
    ensures ReplicaIdField(ruv) == Some("1")
  {
    var head, id := "{replica", "12";
    assert ' ' !in head && ' ' !in id;
    assert ruv == head + " " + id + " }";
    ReplicaIdOfTokens(ruv, head, id, " }");
    assert DropLast(id) == "1";
  }

  /** A requested change to one attribute of an entry: `attr`, empty before, holds `value`
      after. */
  datatype Change = SetValue(attr: string, value: string)

  /** A modify operation: the entry's DN and the change to apply. */
  datatype ModifyRequest = ModifyRequest(dn: string, change: Change)

  /** The request issued for a ghost record: the CLEANRUV directive for its replica id,
      addressed to the replica configuration entry of the base DN. None when the record has
      no replica id field, which in the code is an `IndexError` raised before any prompt. */
  function CleanupRequest(basedn: string, ruv: string): (r: Option<ModifyRequest>)
    ensures r.Some? <==> ' ' in ruv
    ensures r.Some? ==> r.value.dn == Dn.TargetDn(basedn)
    ensures r.Some? ==> r.value.change.attr == TaskAttribute
    ensures r.Some? ==> IsPrefix(CleanRuvPrefix, r.value.change.value)
                        && Some(r.value.change.value[|CleanRuvPrefix|..]) == ReplicaIdField(ruv)
  {
    match ReplicaIdField(ruv)
    case None => None
    case Some(id) =>
      var v := CleanRuvPrefix + id;
      assert v[|CleanRuvPrefix|..] == id;
      Some(ModifyRequest(Dn.TargetDn(basedn), SetValue(TaskAttribute, v)))
  }

  /** For a record of the usual shape the directive names its replica id. */
  lemma CleanupOfRecord(basedn: string, ruv: string, id: string, tail: string)
    requires ruv == "{replica " + id + "}" + tail
    requires ' ' !in id
    requires |tail| == 0 || tail[0] == ' '
    ensures CleanupRequest(basedn, ruv)
         == Some(ModifyRequest(Dn.TargetDn(basedn), SetValue(TaskAttribute, CleanRuvPrefix + id)))
  {
    ReplicaIdOfRecord(ruv, id, tail);
  }

  /** The ghost record of replica 3 yields the directive `CLEANRUV3`. */
  lemma CleanupOfReplicaThree(basedn: string, ruv: string)
    requires ruv == "{replica " + "3" + "}" + " ffffffff-ffffffff"
    ensures CleanupRequest(basedn, ruv).Some?
    ensures CleanupRequest(basedn, ruv).value.change == SetValue("nsds5task", "CLEANRUV3")
  {
    CleanupOfRecord(basedn, ruv, "3", " ffffffff-ffffffff");
  }
}
