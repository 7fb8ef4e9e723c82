/** utils/policy.py: `retrieve_policy`, which picks the Rego policy a file
    is checked against. The file's text is read from the scratch directory
    only for Terraform files. */
module Policy {
  import opened Results
  import opened Strings
  import opened Workspace

  const ApplicationProperties: string := "policy/deny-application-properties.rego"
  const S3: string := "policy/deny-s3.rego"
  const Ecr: string := "policy/deny-ecr.rego"

  /** Why no policy is returned: `open` found no such file, or no rule
      matched ("Appropriate policy could not be found"). */
  datatype PolicyError = FileNotFound(path: string) | NoPolicy

  /** `retrieve_policy(filename)`, the rules tried in order: the exact name
      `application.properties`; then a `.tf` file mentioning an S3 bucket;
      then one mentioning an ECR repository. */
  function RetrievePolicy(filename: string, dir: Dir): (r: Result<string, PolicyError>)
    ensures r.Success? ==> r.value in {ApplicationProperties, S3, Ecr}
    ensures r.Success? && r.value == ApplicationProperties <==> filename == "application.properties"
  {
    if filename == "application.properties" then Success(ApplicationProperties)
    else if EndsWith(filename, ".tf") then
      if Tmp(filename) !in dir then Failure(FileNotFound(Tmp(filename)))
      else
        var content := dir[Tmp(filename)];
        if Contains(content, "aws_s3_bucket") then Success(S3)
        else if Contains(content, "aws_ecr_repository") then Success(Ecr)
        else Failure(NoPolicy)
    else Failure(NoPolicy)
  }

  /** The rules as a table, for comparison: a name test, a marker the text
      must contain (if any) and the policy. */
  datatype Rule = Rule(exactName: Option<string>, suffix: string, marker: Option<string>, policy: string)

  const Rules: seq<Rule> := [
    Rule(Some("application.properties"), "", None, ApplicationProperties),
    Rule(None, ".tf", Some("aws_s3_bucket"), S3),
    Rule(None, ".tf", Some("aws_ecr_repository"), Ecr)
  ]

  predicate NameMatches(rule: Rule, filename: string) {
    match rule.exactName
    case Some(n) => filename == n
    case None => EndsWith(filename, rule.suffix)
  }

  predicate Applies(rule: Rule, filename: string, content: string) {
    NameMatches(rule, filename) &&
    match rule.marker
    case None => true
    case Some(m) => Contains(content, m)
  }

  /** The policy of the first rule that applies, if any. */
  function FirstMatch(rules: seq<Rule>, filename: string, content: string): (r: Option<string>)
    ensures r.Some? <==> exists i :: 0 <= i < |rules| && Applies(rules[i], filename, content)
    ensures r.Some? ==> exists i :: (0 <= i < |rules| && Applies(rules[i], filename, content) && rules[i].policy == r.value
      && forall j :: 0 <= j < i ==> !Applies(rules[j], filename, content))
    decreases |rules|
  {
    if |rules| == 0 then None
    else if Applies(rules[0], filename, content) then Some(rules[0].policy)
    else
      var r := FirstMatch(rules[1..], filename, content);
      assert forall i :: 0 <= i < |rules| - 1 ==> rules[1..][i] == rules[i + 1];
      r
  }

  /** When the file can be read, `retrieve_policy` is the first-match
      reading of the rule table; a missing file matters only for `.tf`
      names. */
  lemma RetrievePolicyIsFirstMatch(filename: string, dir: Dir)
    requires Tmp(filename) in dir || !EndsWith(filename, ".tf") || filename == "application.properties"
    ensures var content := if Tmp(filename) in dir then dir[Tmp(filename)] else "";
      match FirstMatch(Rules, filename, content)
      case Some(p) => RetrievePolicy(filename, dir) == Success(p)
      case None => RetrievePolicy(filename, dir) == Failure(NoPolicy)
  {
    var content := if Tmp(filename) in dir then dir[Tmp(filename)] else "";
    var r1 := Rules[1..];
    var r2 := r1[1..];
    assert r2[1..] == [];
    assert FirstMatch(r2, filename, content) ==
      if Applies(r2[0], filename, content) then Some(Ecr) else FirstMatch(r2[1..], filename, content);
    assert FirstMatch(r1, filename, content) ==
      if Applies(r1[0], filename, content) then Some(S3) else FirstMatch(r2, filename, content);
    assert FirstMatch(Rules, filename, content) ==
      if Applies(Rules[0], filename, content) then Some(ApplicationProperties) else FirstMatch(r1, filename, content);
    if filename == "application.properties" {
      assert !EndsWith(filename, ".tf") by {
        assert filename[|filename| - 3..] == "ies";
      }
    }
  }

  /** The content is not consulted for `application.properties`. */
  lemma ApplicationPropertiesIgnoresContent(dir: Dir, dir': Dir)
    ensures RetrievePolicy("application.properties", dir) == RetrievePolicy("application.properties", dir')
    ensures RetrievePolicy("application.properties", dir) == Success(ApplicationProperties)
  {
  }

  /** An S3 bucket decides the policy even if an ECR repository is also
      mentioned: the first rule wins. */
  lemma S3RuleComesFirst(filename: string, dir: Dir, a: string, b: string, c: string)
    requires filename != "application.properties" && EndsWith(filename, ".tf")
    requires Tmp(filename) in dir && dir[Tmp(filename)] == a + "aws_s3_bucket" + b + "aws_ecr_repository" + c
    ensures RetrievePolicy(filename, dir) == Success(S3)
  {
    var content := dir[Tmp(filename)];
    assert content == a + "aws_s3_bucket" + (b + "aws_ecr_repository" + c);
    ContainsMiddle(a, "aws_s3_bucket", b + "aws_ecr_repository" + c);
  }

  /** Any name other than `application.properties` and `*.tf` is refused,
      whatever the scratch directory holds; so are near misses such as
      `app.properties` and a path ending in `/application.properties`. */
  lemma OtherNamesHaveNoPolicy(filename: string, dir: Dir)
    requires filename != "application.properties" && !EndsWith(filename, ".tf")
    ensures RetrievePolicy(filename, dir) == Failure(NoPolicy)
  {
  }

  lemma NearMissesHaveNoPolicy(dir: Dir, dirname: string)
    ensures RetrievePolicy("app.properties", dir) == Failure(NoPolicy)
    ensures RetrievePolicy(dirname + "/application.properties", dir) == Failure(NoPolicy)
  {
    var p := dirname + "/application.properties";
    assert p[|p| - 3..] == "ies";
    assert |p| > |"application.properties"|;
    assert "app.properties"[|"app.properties"| - 3..] == "ies";
  }
}
