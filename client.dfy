/** The command-line client: reading the options into an argument record,
    checking that the command has the arguments it needs, and calling the one
    request function that the command names.  The options arrive as getopt
    hands them over, one (flag, argument) pair at a time; the network, the
    key file and the request functions themselves are not modelled. */
module Client {
  import opened Wrappers

  /** The eight-character command tags. */
  const REQ_REG: string := "REGISTER"
  const REQ_BYE: string := "EXIT____"
  const REQ_SAV: string := "PERSIST_"
  const REQ_SET: string := "SETPFILE"
  const REQ_GET: string := "GETPFILE"
  const REQ_ALL: string := "ALLUSERS"

  /** Commands that take no argument, one argument, two arguments. */
  const ARGS0: seq<string> := [REQ_BYE, REQ_SAV, REQ_REG]
  const ARGS1: seq<string> := [REQ_SET, REQ_GET, REQ_ALL]
  const ARGS2: seq<string> := []

  /** One option as getopt returns it: the option letter and its argument. */
  datatype Opt = Opt(flag: char, value: string)

  /** The parsed command line. */
  datatype Args = Args(server: string, port: int, keyfile: string, username: string,
                       userpass: string, command: string, arg1: string, arg2: string)

  /** Every field starts empty (the port at 0). */
  const DEFAULT: Args := Args("", 0, "", "", "", "", "", "")

  // ---------------------------------------------------------------------------
  // atoi

  predicate IsDigit(c: char) { '0' as int <= c as int <= '9' as int }

  predicate IsSpace(c: char) { c == ' ' || c == '\t' || c == '\n' || c == '\r' || c == '\U{000B}' || c == '\U{000C}' }

  /** `s` without its leading white space. */
  function SkipSpace(s: string): (t: string)
    ensures |t| <= |s| && t == s[|s| - |t|..]
    ensures t != [] ==> !IsSpace(t[0])
  {
    if s != [] && IsSpace(s[0]) then
      var t := SkipSpace(s[1..]);
      assert s[1..][|s| - 1 - |t|..] == s[|s| - |t|..];
      t
    else s
  }

  /** The longest prefix of `s` made of decimal digits. */
  function LeadingDigits(s: string): (d: string)
    ensures |d| <= |s| && d == s[..|d|]
    ensures forall i :: 0 <= i < |d| ==> IsDigit(d[i])
    ensures |d| < |s| ==> !IsDigit(s[|d|])
  {
    if s != [] && IsDigit(s[0]) then [s[0]] + LeadingDigits(s[1..]) else []
  }

  /** The number a string of digits denotes. */
  function DigitsValue(d: string): (n: nat)
    requires forall i :: 0 <= i < |d| ==> IsDigit(d[i])
  {
    if d == [] then 0
    else
      var last := d[|d| - 1];
      assert IsDigit(last);
      10 * DigitsValue(d[..|d| - 1]) + (last as int - '0' as int)
  }

  /** C's atoi: skip white space, read an optional sign and then as many
      digits as there are; no digits is 0.  (Overflow is not modelled.) */
  function Atoi(s: string): (n: int)
    ensures n < 0 ==> SkipSpace(s) != [] && SkipSpace(s)[0] == '-'
    ensures SkipSpace(s) == [] || !(IsDigit(SkipSpace(s)[0]) || SkipSpace(s)[0] in "+-") ==> n == 0
  {
    var t := SkipSpace(s);
    if t != [] && t[0] == '-' then -(DigitsValue(LeadingDigits(t[1..])) as int)
    else if t != [] && t[0] == '+' then DigitsValue(LeadingDigits(t[1..]))
    else DigitsValue(LeadingDigits(t))
  }

  /** The decimal numeral of `n`, without leading zeros. */
  function Decimal(n: nat): (s: string)
    ensures s != [] && IsDigit(s[0])
    ensures forall i :: 0 <= i < |s| ==> IsDigit(s[i])
  {
    if n < 10 then [('0' as int + n) as char]
    else Decimal(n / 10) + [('0' as int + n % 10) as char]
  }

  /** A numeral reads back as its number. */
  lemma {:induction false} DecimalValue(n: nat)
    ensures DigitsValue(Decimal(n)) == n
  {
    if n >= 10 {
      var d := Decimal(n);
      assert d[..|d| - 1] == Decimal(n / 10);
      DecimalValue(n / 10);
    }
  }

  /** A string of digits is its own longest digit prefix. */
  lemma {:induction false} AllDigits(s: string)
    requires forall i :: 0 <= i < |s| ==> IsDigit(s[i])
    ensures LeadingDigits(s) == s
  {
    if s != [] {
      AllDigits(s[1..]);
    }
  }

  /** atoi reads back a port written in decimal. */
  lemma AtoiDecimal(n: nat)
    ensures Atoi(Decimal(n)) == n
  {
    AtoiDigits(Decimal(n));
    DecimalValue(n);
  }

  /** atoi of a non-empty string of digits is the number they denote. */
  lemma AtoiDigits(d: string)
    requires d != [] && forall i :: 0 <= i < |d| ==> IsDigit(d[i])
    ensures Atoi(d) == DigitsValue(d)
  {
    assert IsDigit(d[0]);
    assert !IsSpace(d[0]) && d[0] != '-' && d[0] != '+';
    assert SkipSpace(d) == d;
    AllDigits(d);
  }

  /** atoi reads back a negative number written in decimal. */
  lemma AtoiNegativeDecimal(n: nat)
    ensures Atoi("-" + Decimal(n)) == -(n as int)
  {
    var d := Decimal(n);
    var m := "-" + d;
    assert m[0] == '-' && m[1..] == d;
    assert SkipSpace(m) == m;
    AllDigits(d);
    DecimalValue(n);
  }

  /** atoi of text with no leading number is 0. */
  lemma AtoiNoDigits(s: string)
    requires s != [] && !IsDigit(s[0]) && !IsSpace(s[0]) && s[0] != '-' && s[0] != '+'
    ensures Atoi(s) == 0
  {
  }

  // ---------------------------------------------------------------------------
  // Options

  /** Record one option in the argument record; None for any letter the
      client does not know, `-h` included. */
  function Assign(a: Args, o: Opt): (r: Option<Args>)
    ensures r.None? <==> o.flag !in "pskuwC12"
  {
    match o.flag
    case 'p' => Some(a.(port := Atoi(o.value)))
    case 's' => Some(a.(server := o.value))
    case 'k' => Some(a.(keyfile := o.value))
    case 'u' => Some(a.(username := o.value))
    case 'w' => Some(a.(userpass := o.value))
    case 'C' => Some(a.(command := o.value))
    case '1' => Some(a.(arg1 := o.value))
    case '2' => Some(a.(arg2 := o.value))
    case _ => None
  }

  /** Record the options in order; None as soon as one is unknown. */
  function ApplyOpts(a: Args, opts: seq<Opt>): (r: Option<Args>)
    ensures r.Some? <==> forall i :: 0 <= i < |opts| ==> opts[i].flag in "pskuwC12"
    decreases |opts|
  {
    if opts == [] then Some(a)
    else
      match Assign(a, opts[0])
      case None => None
      case Some(a') =>
        assert forall i :: 1 <= i < |opts| ==> opts[i] == opts[1..][i - 1];
        ApplyOpts(a', opts[1..])
  }

  /** The string field that option letter `flag` sets. */
  function StringField(a: Args, flag: char): string
    requires flag in "skuwC12"
  {
    match flag
    case 's' => a.server
    case 'k' => a.keyfile
    case 'u' => a.username
    case 'w' => a.userpass
    case 'C' => a.command
    case '1' => a.arg1
    case _ => a.arg2
  }

  /** The argument of the last option with letter `flag`, if any. */
  function LastValue(opts: seq<Opt>, flag: char): (r: Option<string>)
    ensures r.None? <==> forall i :: 0 <= i < |opts| ==> opts[i].flag != flag
    ensures r.Some? ==> exists i :: 0 <= i < |opts| && opts[i] == Opt(flag, r.value) &&
                                    forall j :: i < j < |opts| ==> opts[j].flag != flag
  {
    if opts == [] then None
    else
      match LastValue(opts[1..], flag)
      case Some(v) =>
        var i :| 0 <= i < |opts[1..]| && opts[1..][i] == Opt(flag, v) &&
                 forall j :: i < j < |opts[1..]| ==> opts[1..][j].flag != flag;
        assert opts[i + 1] == Opt(flag, v);
        assert forall j :: i + 1 < j < |opts| ==> opts[j] == opts[1..][j - 1];
        Some(v)
      case None =>
        assert forall j :: 1 <= j < |opts| ==> opts[j] == opts[1..][j - 1];
        if opts[0].flag == flag then Some(opts[0].value) else None
  }

  /** An unknown option anywhere rejects the whole command line. */
  lemma {:induction false} UnknownOptionRejects(a: Args, opts: seq<Opt>, k: nat)
    requires k < |opts| && opts[k].flag !in "pskuwC12"
    ensures ApplyOpts(a, opts) == None
    decreases |opts|
  {
    if k > 0 {
      match Assign(a, opts[0])
      case None =>
      case Some(a') =>
        assert opts[1..][k - 1] == opts[k];
        UnknownOptionRejects(a', opts[1..], k - 1);
    }
  }

  /** When an option repeats, the last occurrence wins; a field no option
      sets keeps its starting value. */
  lemma {:induction false} LastOccurrenceWins(a: Args, opts: seq<Opt>, flag: char)
    requires flag in "skuwC12"
    requires ApplyOpts(a, opts).Some?
    ensures StringField(ApplyOpts(a, opts).value, flag) ==
            match LastValue(opts, flag) case Some(v) => v case None => StringField(a, flag)
    decreases |opts|
  {
    if opts != [] {
      var a' := Assign(a, opts[0]).value;
      AssignField(a, opts[0], flag);
      LastOccurrenceWins(a', opts[1..], flag);
    }
  }

  /** One option sets the field of its own letter and leaves the others. */
  lemma AssignField(a: Args, o: Opt, flag: char)
    requires flag in "skuwC12" && Assign(a, o).Some?
    ensures StringField(Assign(a, o).value, flag) == if o.flag == flag then o.value else StringField(a, flag)
  {
    if o.flag != flag {
      assert StringField(Assign(a, o).value, flag) == StringField(a, flag);
    }
  }

  /** The port is atoi of the last `-p` argument, or 0 without one. */
  lemma {:induction false} PortIsLastAtoi(a: Args, opts: seq<Opt>)
    requires ApplyOpts(a, opts).Some?
    ensures ApplyOpts(a, opts).value.port ==
            match LastValue(opts, 'p') case Some(v) => Atoi(v) case None => a.port
    decreases |opts|
  {
    if opts != [] {
      PortIsLastAtoi(Assign(a, opts[0]).value, opts[1..]);
    }
  }

  // ---------------------------------------------------------------------------
  // Arity check

  /** The command is one the client knows and comes with exactly the
      arguments it needs. */
  predicate ArityOk(a: Args)
  {
    (a.command in ARGS0 && a.arg1 == "" && a.arg2 == "") ||
    (a.command in ARGS1 && a.arg1 != "" && a.arg2 == "") ||
    (a.command in ARGS2 && a.arg1 != "" && a.arg2 != "")
  }

  /** The client accepts the command line. */
  predicate Accepted(opts: seq<Opt>)
  {
    ApplyOpts(DEFAULT, opts).Some? && ArityOk(ApplyOpts(DEFAULT, opts).value)
  }

  /** Scan one table of commands for `command`. */
  method Lookup(table: seq<string>, command: string) returns (found: bool)
    ensures found <==> command in table
  {
    for j := 0 to |table|
      invariant forall k :: 0 <= k < j ==> command != table[k]
    {
      if command == table[j] {
        return true;
      }
    }
    return false;
  }

  /** The arg_t constructor: read the options, then look the command up in
      the tables of zero-, one- and two-argument commands.  None stands for
      the exception that sends the user to the help text. */
  method ParseArgs(opts: seq<Opt>) returns (r: Option<Args>)
    ensures r.Some? <==> Accepted(opts)
    ensures r.Some? ==> r == ApplyOpts(DEFAULT, opts)
  {
    var a := DEFAULT;
    var i := 0;
    while i < |opts|
      invariant 0 <= i <= |opts|
      invariant ApplyOpts(a, opts[i..]) == ApplyOpts(DEFAULT, opts)
    {
      assert opts[i..][0] == opts[i] && opts[i..][1..] == opts[i + 1..];
      var next := Assign(a, opts[i]);
      if next.None? {
        return None;
      }
      a := next.value;
      i := i + 1;
    }
    assert opts[i..] == [];
    var found := Lookup(ARGS0, a.command);
    if found {
      return if a.arg1 != "" || a.arg2 != "" then None else Some(a);
    }
    found := Lookup(ARGS1, a.command);
    if found {
      return if a.arg1 == "" || a.arg2 != "" then None else Some(a);
    }
    found := Lookup(ARGS2, a.command);
    if found {
      return if a.arg1 == "" || a.arg2 == "" then None else Some(a);
    }
    return None;
  }

  /** A zero-argument command is accepted exactly when neither `-1` nor `-2`
      carries a value; a one-argument command exactly when `-1` does and `-2`
      does not; any other command never. */
  lemma AcceptedIff(opts: seq<Opt>)
    requires ApplyOpts(DEFAULT, opts).Some?
    ensures var a := ApplyOpts(DEFAULT, opts).value;
            (a.command in {REQ_BYE, REQ_SAV, REQ_REG} ==> (Accepted(opts) <==> a.arg1 == "" && a.arg2 == "")) &&
            (a.command in {REQ_SET, REQ_GET, REQ_ALL} ==> (Accepted(opts) <==> a.arg1 != "" && a.arg2 == "")) &&
            (a.command !in {REQ_BYE, REQ_SAV, REQ_REG, REQ_SET, REQ_GET, REQ_ALL} ==> !Accepted(opts))
  {
  }

  // ---------------------------------------------------------------------------
  // Dispatch

  /** The request functions `main` can call. */
  datatype Request = ReqReg | ReqBye | ReqSet | ReqGet | ReqAll | ReqSav

  /** The tag each request function sends. */
  function TagOf(q: Request): string
  {
    match q
    case ReqReg => REQ_REG
    case ReqBye => REQ_BYE
    case ReqSet => REQ_SET
    case ReqGet => REQ_GET
    case ReqAll => REQ_ALL
    case ReqSav => REQ_SAV
  }

  /** A call of a request function with the user, password and the two
      command arguments. */
  datatype Call = Call(req: Request, user: string, pass: string, arg1: string, arg2: string)

  /** `main`'s table of commands and the request function for each. */
  const CMD: seq<string> := [REQ_REG, REQ_BYE, REQ_SET, REQ_GET, REQ_ALL, REQ_SAV]
  const FUNC: seq<Request> := [ReqReg, ReqBye, ReqSet, ReqGet, ReqAll, ReqSav]

  /** Different request functions send different tags. */
  lemma TagsDistinct(p: Request, q: Request)
    ensures TagOf(p) == TagOf(q) <==> p == q
  {
  }

  /** The dispatch loop of `main`: call every request function whose tag
      equals the command.  At most one matches, so at most one is called. */
  method Dispatch(a: Args) returns (calls: seq<Call>)
    ensures |calls| <= 1
    ensures forall c :: c in calls ==> c == Call(c.req, a.username, a.userpass, a.arg1, a.arg2)
    ensures forall q :: Call(q, a.username, a.userpass, a.arg1, a.arg2) in calls <==> TagOf(q) == a.command
  {
    calls := [];
    for i := 0 to |CMD|
      invariant |calls| <= 1
      invariant calls == [] <==> forall k :: 0 <= k < i ==> CMD[k] != a.command
      invariant forall c :: c in calls ==> TagOf(c.req) == a.command &&
                                           c == Call(c.req, a.username, a.userpass, a.arg1, a.arg2)
    {
      if a.command == CMD[i] {
        calls := calls + [Call(FUNC[i], a.username, a.userpass, a.arg1, a.arg2)];
      }
    }
    forall q | TagOf(q) == a.command
      ensures Call(q, a.username, a.userpass, a.arg1, a.arg2) in calls
    {
      var k := match q case ReqReg => 0 case ReqBye => 1 case ReqSet => 2 case ReqGet => 3 case ReqAll => 4 case ReqSav => 5;
      assert CMD[k] == a.command;
      var c := calls[0];
      TagsDistinct(c.req, q);
    }
  }

  /** `main`: parse the command line (exit code 1 and no request when it is
      refused), then call the request function of the command. */
  method ClientMain(opts: seq<Opt>) returns (code: int, calls: seq<Call>)
    ensures code == 0 <==> Accepted(opts)
    ensures code != 0 ==> code == 1 && calls == []
    ensures code == 0 ==> var a := ApplyOpts(DEFAULT, opts).value;
                          |calls| == 1 && TagOf(calls[0].req) == a.command &&
                          calls[0] == Call(calls[0].req, a.username, a.userpass, a.arg1, a.arg2)
  {
    var args := ParseArgs(opts);
    if args.None? {
      return 1, [];
    }
    var a := args.value;
    calls := Dispatch(a);
    var q := if a.command == REQ_REG then ReqReg else if a.command == REQ_BYE then ReqBye
             else if a.command == REQ_SET then ReqSet else if a.command == REQ_GET then ReqGet
             else if a.command == REQ_ALL then ReqAll else ReqSav;
    assert TagOf(q) == a.command;
    assert Call(q, a.username, a.userpass, a.arg1, a.arg2) in calls;
    code := 0;
  }
}
