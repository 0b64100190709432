/**
 * DBConfig: the JDBC connection settings (user, password, url, dialect),
 * built through a builder whose fields start at the test defaults.
 */
module DbConfig {
  import opened Wrappers
  import opened JavaStrings

  /** The SQL dialect; only the default one is named here. */
  datatype SqlDialect = Postgres | OtherDialect(name: string)

  datatype DBConfig = DBConfig(userName: string, password: string, url: string, dialect: SqlDialect)

  /** The constructor's argument check failed: a user name, password or url is null or empty. */
  datatype ConfigError = IllegalArgument

  /** A Java string argument that is neither null nor empty. */
  predicate Present(s: Option<string>) {
    s.Some? && s.value != ""
  }

  /** new DBConfig(userName, password, url, dialect): all three strings must be present. */
  function NewConfig(userName: Option<string>, password: Option<string>, url: Option<string>, dialect: SqlDialect): (r: Result<DBConfig, ConfigError>)
    ensures r.Success? <==> Present(userName) && Present(password) && Present(url)
    ensures r.Success? ==> r.value == DBConfig(userName.value, password.value, url.value, dialect)
    ensures r.Failure? ==> r.error == IllegalArgument
  {
    if Present(userName) && Present(password) && Present(url) then
      Success(DBConfig(userName.value, password.value, url.value, dialect))
    else
      Failure(IllegalArgument)
  }

  /** new DBConfig(userName, password, url): the four-argument form with the default dialect. */
  function NewDefaultDialectConfig(userName: Option<string>, password: Option<string>, url: Option<string>): (r: Result<DBConfig, ConfigError>)
    ensures r.Success? <==> Present(userName) && Present(password) && Present(url)
    ensures r.Success? ==> r.value.dialect == Postgres
    ensures r == NewConfig(userName, password, url, Postgres)
  {
    NewConfig(userName, password, url, Postgres)
  }

  /** Every constructed configuration holds non-empty strings. */
  predicate Valid(c: DBConfig) {
    c.userName != "" && c.password != "" && c.url != ""
  }

  lemma NewConfigValid(userName: Option<string>, password: Option<string>, url: Option<string>, dialect: SqlDialect)
    requires NewConfig(userName, password, url, dialect).Success?
    ensures Valid(NewConfig(userName, password, url, dialect).value)
  {
  }

  /**
   * getUrl: a url already holding "jdbc:" is returned as it is; any other is
   * handed to the JDBC url builder together with the dialect.
   */
  function GetUrl(c: DBConfig, buildJdbcUrl: (string, SqlDialect) -> string): (r: string)
    ensures Contains(c.url, "jdbc:") ==> r == c.url
    ensures !Contains(c.url, "jdbc:") ==> r == buildJdbcUrl(c.url, c.dialect)
  {
    if !Contains(c.url, "jdbc:") then buildJdbcUrl(c.url, c.dialect) else c.url
  }

  /** getDatabaseName: the second piece of the url split at '/', if there is one. */
  function GetDatabaseName(c: DBConfig): (r: Option<string>)
    ensures r.Some? <==> |JavaSplit(c.url, '/')| > 1
    ensures r.Some? ==> '/' !in r.value && r.value == JavaSplit(c.url, '/')[1]
  {
    var tokens := JavaSplit(c.url, '/');
    if |tokens| > 1 then Some(tokens[1]) else None
  }

  /** getServerName: the first piece of the url split at '/', if there is any. */
  function GetServerName(c: DBConfig): (r: Option<string>)
    ensures r.Some? <==> |JavaSplit(c.url, '/')| != 0
    ensures r.Some? ==> '/' !in r.value && r.value == JavaSplit(c.url, '/')[0]
  {
    var tokens := JavaSplit(c.url, '/');
    if |tokens| != 0 then Some(tokens[0]) else None
  }

  /** A url "server/database" gives back its server and its database. */
  lemma ServerAndDatabaseRoundTrip(c: DBConfig, server: string, database: string)
    requires '/' !in server && '/' !in database && database != []
    requires c.url == server + "/" + database
    ensures GetServerName(c) == Some(server)
    ensures GetDatabaseName(c) == Some(database)
  {
    JavaSplitJoin([server, database], '/');
    assert Join([server, database], '/') == c.url;
  }

  /**
   * A url made of '/'-free pieces joined by '/', the last one non-empty, names
   * its first piece as the server and its second piece, if any, as the database.
   */
  lemma UrlPiecesNames(c: DBConfig, pieces: seq<string>)
    requires |pieces| >= 1 && pieces[|pieces| - 1] != []
    requires forall k :: 0 <= k < |pieces| ==> '/' !in pieces[k]
    requires c.url == Join(pieces, '/')
    ensures GetServerName(c) == Some(pieces[0])
    ensures GetDatabaseName(c) == if |pieces| > 1 then Some(pieces[1]) else None
  {
    JavaSplitJoin(pieces, '/');
  }

  /** A url without '/' is the server name alone, with no database. */
  lemma UrlWithoutSlash(c: DBConfig)
    requires '/' !in c.url
    ensures GetServerName(c) == Some(c.url)
    ensures GetDatabaseName(c) == None
  {
  }

  /** A url made only of '/' characters names neither a server nor a database. */
  lemma UrlOnlySlashes(c: DBConfig)
    requires c.url != [] && forall i :: 0 <= i < |c.url| ==> c.url[i] == '/'
    ensures GetServerName(c) == None
    ensures GetDatabaseName(c) == None
  {
    OnlySeparatorsSplitEmpty(c.url, '/');
    assert c.url[0] == '/';
  }

  lemma {:induction false} OnlySeparatorsSplitEmpty(s: string, sep: char)
    requires forall i :: 0 <= i < |s| ==> s[i] == sep
    ensures forall k :: 0 <= k < |SplitAll(s, sep)| ==> SplitAll(s, sep)[k] == []
    ensures s != [] ==> DropTrailingEmpty(SplitAll(s, sep)) == []
  {
    if s != [] {
      OnlySeparatorsSplitEmpty(s[1..], sep);
    }
  }

  /**
   * A full JDBC url "scheme//host/database" splits into the scheme, an empty
   * piece, the host and the database: the server name is the scheme and the
   * database name is empty.
   */
  lemma JdbcUrlNames(c: DBConfig, scheme: string, host: string, database: string)
    requires '/' !in scheme && '/' !in host && '/' !in database && database != []
    requires c.url == scheme + "//" + host + "/" + database
    ensures GetServerName(c) == Some(scheme)
    ensures GetDatabaseName(c) == Some("")
  {
    var pieces := [scheme, "", host, database];
    JavaSplitJoin(pieces, '/');
    assert Join(pieces[2..], '/') == host + "/" + database;
    assert Join(pieces[1..], '/') == "/" + host + "/" + database;
    assert Join(pieces, '/') == c.url;
  }

  // ---------------------------------------------------------------------
  // The builder
  // ---------------------------------------------------------------------

  class Builder {
    var userName: Option<string>
    var password: Option<string>
    var url: Option<string>
    var dialect: SqlDialect

    /** A builder starts from the test database's settings. */
    constructor ()
      ensures userName == Some("tester") && password == Some("tester")
      ensures url == Some("localhost/unittest") && dialect == Postgres
    {
      userName := Some("tester");
      password := Some("tester");
      url := Some("localhost/unittest");
      dialect := Postgres;
    }

    method Username(userName: Option<string>) returns (self: Builder)
      modifies this
      ensures self == this && this.userName == userName
      ensures password == old(password) && url == old(url) && dialect == old(dialect)
    {
      this.userName := userName;
      return this;
    }

    method Password(password: Option<string>) returns (self: Builder)
      modifies this
      ensures self == this && this.password == password
      ensures userName == old(userName) && url == old(url) && dialect == old(dialect)
    {
      this.password := password;
      return this;
    }

    method Url(url: Option<string>) returns (self: Builder)
      modifies this
      ensures self == this && this.url == url
      ensures userName == old(userName) && password == old(password) && dialect == old(dialect)
    {
      this.url := url;
      return this;
    }

    method Dialect(dialect: SqlDialect) returns (self: Builder)
      modifies this
      ensures self == this && this.dialect == dialect
      ensures userName == old(userName) && password == old(password) && url == old(url)
    {
      this.dialect := dialect;
      return this;
    }

    /** build: the constructor applied to the builder's current settings. */
    method Build() returns (r: Result<DBConfig, ConfigError>)
      ensures r.Success? <==> Present(userName) && Present(password) && Present(url)
      ensures r.Success? ==> r.value == DBConfig(userName.value, password.value, url.value, dialect)
      ensures r.Failure? ==> r.error == IllegalArgument
    {
      r := NewConfig(userName, password, url, dialect);
    }
  }

  /** A fresh builder builds the test configuration, whose url names server "localhost" and database "unittest". */
  method BuildDefaults() returns (r: Result<DBConfig, ConfigError>)
    ensures r == Success(DBConfig("tester", "tester", "localhost/unittest", Postgres))
    ensures GetServerName(r.value) == Some("localhost") && GetDatabaseName(r.value) == Some("unittest")
  {
    var b := new Builder();
    r := b.Build();
    ServerAndDatabaseRoundTrip(r.value, "localhost", "unittest");
  }

  /** Setting the url to null makes build fail, whatever user name, password and dialect were set. */
  method BuildWithoutUrl(userName: Option<string>, password: Option<string>, dialect: SqlDialect)
    returns (r: Result<DBConfig, ConfigError>)
    ensures r == Failure(IllegalArgument)
  {
    var b := new Builder();
    var b1 := b.Username(userName);
    var b2 := b1.Password(password);
    var b3 := b2.Dialect(dialect);
    var b4 := b3.Url(None);
    r := b4.Build();
  }
}
