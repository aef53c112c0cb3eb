/**
 * The settings the gateway needs and the guard that refuses a request when
 * any is missing.
 */
module Config {
  import opened Results

  /** The environment variables the gateway reads; an unset variable is None. */
  datatype Env = Env(
    bucket: Option<string>,           // AWS_S3_BUCKET
    region: Option<string>,           // AWS_REGION
    accessKeyId: Option<string>,      // AWS_ACCESS_KEY_ID
    secretAccessKey: Option<string>)  // AWS_SECRET_ACCESS_KEY

  /** JavaScript truthiness of an environment value: set and not empty. */
  predicate Truthy(v: Option<string>) {
    v.Some? && v.value != []
  }

  const DefaultRegion := "us-east-1"

  /**
   * What the guard consults: the bucket name and region as the client module
   * resolved them at start-up, and the two credentials as the environment holds them.
   */
  datatype Settings = Settings(
    bucketName: string,
    region: string,
    accessKeyId: Option<string>,
    secretAccessKey: Option<string>)

  /** The client module's `bucketName` and `region`: the variable's value, or `''` and `us-east-1`. */
  function Resolve(env: Env): (s: Settings)
    ensures s.region != []
    ensures s.bucketName == [] <==> !Truthy(env.bucket)
    ensures Truthy(env.bucket) ==> s.bucketName == env.bucket.value
    ensures Truthy(env.region) ==> s.region == env.region.value
    ensures !Truthy(env.region) ==> s.region == DefaultRegion
    ensures s.accessKeyId == env.accessKeyId && s.secretAccessKey == env.secretAccessKey
  {
    Settings(
      if Truthy(env.bucket) then env.bucket.value else [],
      if Truthy(env.region) then env.region.value else DefaultRegion,
      env.accessKeyId,
      env.secretAccessKey)
  }

  /** The names the guard reports, in the order it checks them. */
  const RequiredNames: seq<string> := ["AWS_S3_BUCKET", "AWS_REGION", "AWS_ACCESS_KEY_ID", "AWS_SECRET_ACCESS_KEY"]

  /** Whether the setting called `name` is missing; a name the guard does not check is never missing. */
  predicate Absent(s: Settings, name: string) {
    if name == RequiredNames[0] then s.bucketName == []
    else if name == RequiredNames[1] then s.region == []
    else if name == RequiredNames[2] then !Truthy(s.accessKeyId)
    else if name == RequiredNames[3] then !Truthy(s.secretAccessKey)
    else false
  }

  /** The names among `names` that are absent, in their order there. */
  function Absentees(s: Settings, names: seq<string>): seq<string> {
    if names == [] then []
    else (if Absent(s, names[0]) then [names[0]] else []) + Absentees(s, names[1..])
  }

  /** Reference definition of the guard's list: the required names that are absent. */
  function MissingSettings(s: Settings): seq<string> {
    Absentees(s, RequiredNames)
  }

  /** `requireConfig`'s `missing` array, built one push per setting. */
  method RequireConfig(s: Settings) returns (missing: seq<string>)
    ensures missing == MissingSettings(s)
  {
    missing := [];
    if s.bucketName == [] {
      missing := missing + ["AWS_S3_BUCKET"];
    }
    if s.region == [] {
      missing := missing + ["AWS_REGION"];
    }
    if !Truthy(s.accessKeyId) {
      missing := missing + ["AWS_ACCESS_KEY_ID"];
    }
    if !Truthy(s.secretAccessKey) {
      missing := missing + ["AWS_SECRET_ACCESS_KEY"];
    }
    AbsenteesOfRequired(s);
  }

  lemma AbsenteesOfRequired(s: Settings)
    ensures MissingSettings(s) ==
      (if s.bucketName == [] then ["AWS_S3_BUCKET"] else []) +
      (if s.region == [] then ["AWS_REGION"] else []) +
      (if !Truthy(s.accessKeyId) then ["AWS_ACCESS_KEY_ID"] else []) +
      (if !Truthy(s.secretAccessKey) then ["AWS_SECRET_ACCESS_KEY"] else [])
  {
    var r := RequiredNames;
    assert Absentees(s, r[4..]) == [];
    assert r[3..][1..] == r[4..];
    assert Absentees(s, r[3..]) == (if Absent(s, r[3]) then [r[3]] else []);
    assert r[2..][1..] == r[3..];
    assert Absentees(s, r[2..]) == (if Absent(s, r[2]) then [r[2]] else []) + Absentees(s, r[3..]);
    assert r[1..][1..] == r[2..];
    assert Absentees(s, r[1..]) == (if Absent(s, r[1]) then [r[1]] else []) + Absentees(s, r[2..]);
    assert Absentees(s, r) == (if Absent(s, r[0]) then [r[0]] else []) + Absentees(s, r[1..]);
  }

  /** `xs` is `ys` with some entries left out, the rest in their order. */
  predicate Subsequence(xs: seq<string>, ys: seq<string>) {
    || xs == []
    || (ys != [] && ((xs[0] == ys[0] && Subsequence(xs[1..], ys[1..])) || Subsequence(xs, ys[1..])))
  }

  lemma {:induction false} AbsenteesOrdered(s: Settings, names: seq<string>)
    ensures Subsequence(Absentees(s, names), names)
  {
    if names != [] {
      AbsenteesOrdered(s, names[1..]);
      var rest := Absentees(s, names[1..]);
      if Absent(s, names[0]) {
        assert Absentees(s, names) == [names[0]] + rest;
        assert ([names[0]] + rest)[1..] == rest;
      } else {
        assert Absentees(s, names) == rest;
      }
    }
  }

  lemma {:induction false} AbsenteesExact(s: Settings, names: seq<string>)
    ensures forall n :: n in Absentees(s, names) <==> n in names && Absent(s, n)
  {
    if names != [] {
      AbsenteesExact(s, names[1..]);
      assert forall n :: n in names <==> n == names[0] || n in names[1..];
    }
  }

  /**
   * The guard's list holds exactly the absent settings, in the fixed order
   * bucket, region, access key, secret; it is empty exactly when all four are set.
   */
  lemma MissingExact(s: Settings)
    ensures forall n :: n in MissingSettings(s) <==> n in RequiredNames && Absent(s, n)
    ensures Subsequence(MissingSettings(s), RequiredNames)
    ensures MissingSettings(s) == [] <==>
      s.bucketName != [] && s.region != [] && Truthy(s.accessKeyId) && Truthy(s.secretAccessKey)
  {
    AbsenteesExact(s, RequiredNames);
    AbsenteesOrdered(s, RequiredNames);
    AbsenteesOfRequired(s);
  }

  /** Because the region has a default, the guard never reports AWS_REGION. */
  lemma RegionNeverMissing(env: Env)
    ensures "AWS_REGION" !in MissingSettings(Resolve(env))
  {
    MissingExact(Resolve(env));
  }
}
