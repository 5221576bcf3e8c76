/**
  The Kubernetes Secret that app.py builds around the result of `parse_env`
  (the dictionary literal `secret_json`, written out the same way in both
  request handlers): a fixed envelope, the name and namespace the caller
  supplies, and the parsed dictionary as `data`.
 */
module Manifest {
  import opened Wrappers
  import opened Text
  import opened Dicts
  import opened EnvParser

  datatype Metadata = Metadata(name: string, namespace: string)

  /** The fields in the order `json.dumps` writes them: `kind`, `apiVersion`,
      `metadata`, `type`, `data`. */
  datatype Secret = Secret(
    kind: string,
    apiVersion: string,
    metadata: Metadata,
    secretType: string,
    data: Dict<string, string>)

  /** data holds exactly the keys of the accepted lines ls. */
  ghost predicate HoldsKeysOf(data: Dict<string, string>, ls: seq<Line>) {
    forall k :: k in data.entries <==> exists n :: 0 <= n < |ls| && Defines(ls, n, k)
  }

  /** Every value of data decodes (base64, then UTF-8) to the cleaned value
      of a line of ls defining its key. */
  ghost predicate DecodesToLines(data: Dict<string, string>, ls: seq<Line>) {
    forall k :: k in data.entries ==>
      exists n :: 0 <= n < |ls| && Defines(ls, n, k) && DecodeValue(data.entries[k]) == Some(ls[n].value)
  }

  /** The value under each key is the encoding of the cleaned value of the
      last line of ls defining that key. */
  ghost predicate LastLineWins(data: Dict<string, string>, ls: seq<Line>) {
    forall n :: 0 <= n < |ls| && ls[n].Entry? && (forall m :: n < m < |ls| ==> !Defines(ls, m, ls[n].key)) ==>
      ls[n].key in data.entries && data.entries[ls[n].key] == EncodeValue(ls[n].value)
  }

  /** `secret_json` for the given form fields: an Opaque v1 Secret whose data
      is what `parse_env` returns for the text: exactly the keys of the
      accepted lines, in the order of their first definition, each mapped to
      the encoding of the value of the last line defining it, which decodes
      back to that cleaned value. */
  function SecretOf(envContent: string, secretName: string, namespace: string): (r: Secret)
    ensures r.kind == "Secret" && r.apiVersion == "v1" && r.secretType == "Opaque"
    ensures r.metadata.name == secretName && r.metadata.namespace == namespace
    ensures r.data.Valid()
    ensures HoldsKeysOf(r.data, ClassifyAll(SplitLines(envContent)))
    ensures DecodesToLines(r.data, ClassifyAll(SplitLines(envContent)))
    ensures LastLineWins(r.data, ClassifyAll(SplitLines(envContent)))
    ensures InDefinitionOrder(ClassifyAll(SplitLines(envContent)), r.data.keys)
    ensures r.data == EnvFile(envContent)
  {
    DataOfLines(ClassifyAll(SplitLines(envContent)));
    Secret("Secret", "v1", Metadata(secretName, namespace), "Opaque", EnvFile(envContent))
  }

  lemma DataOfLines(ls: seq<Line>)
    ensures HoldsKeysOf(Collect(ls), ls)
    ensures DecodesToLines(Collect(ls), ls)
    ensures LastLineWins(Collect(ls), ls)
    ensures InDefinitionOrder(ls, Collect(ls).keys)
  {
    KeyOrder(ls);
    forall n | 0 <= n < |ls| && ls[n].Entry? && (forall m :: n < m < |ls| ==> !Defines(ls, m, ls[n].key))
      ensures ls[n].key in Collect(ls).entries && Collect(ls).entries[ls[n].key] == EncodeValue(ls[n].value)
    {
      LastWins(ls, n);
    }
    forall k
      ensures k in Collect(ls).entries <==> exists n :: 0 <= n < |ls| && Defines(ls, n, k)
    {
      KeySet(ls, k);
    }
    forall k | k in Collect(ls).entries
      ensures exists n :: 0 <= n < |ls| && Defines(ls, n, k) && DecodeValue(Collect(ls).entries[k]) == Some(ls[n].value)
    {
      DictionaryDecodes(ls, k);
    }
  }
}
