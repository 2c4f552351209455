/** The repository-address vectors of `pkg/utils/repository`: every
    address form of the test table, each an instance of `UrlOfForm` for
    the host and path the table uses. */
module RepositoryExamples {
  import opened Repository

  /** The host and path of the `ghuser` rows are plain. */
  lemma GhuserParts()
    ensures PlainParts("github", "ghuser/package-name")
  {
  }

  /** The host and path of the `mongodb` rows are plain. */
  lemma MongodbParts()
    ensures PlainParts("github", "mongodb/node-mongodb-native")
  {
  }

  /** The `https://` rows of the test table: plain, with a `.git` ending
      and with `.git#main`. */
  lemma HttpsVectors()
    ensures GetRepositoryUrl("https://" + "github" + ".com/" + "ghuser/package-name") == "https://" + "github" + ".com/" + "ghuser/package-name"
    ensures GetRepositoryUrl("https://" + "github" + ".com/" + "ghuser/package-name" + ".git") == "https://" + "github" + ".com/" + "ghuser/package-name"
    ensures GetRepositoryUrl("https://" + "github" + ".com/" + "ghuser/package-name" + ".git" + "#main") == "https://" + "github" + ".com/" + "ghuser/package-name"
  {
    GhuserParts();
    UrlOfForm("https://" + "github" + ".com/" + "ghuser/package-name", "", "https://", "github", ".com/", "ghuser/package-name", "", "");
    UrlOfForm("https://" + "github" + ".com/" + "ghuser/package-name" + ".git", "", "https://", "github", ".com/", "ghuser/package-name", ".git", "");
    UrlOfForm("https://" + "github" + ".com/" + "ghuser/package-name" + ".git" + "#main", "", "https://", "github", ".com/", "ghuser/package-name", ".git", "#main");
  }

  /** The `git+https://` rows of the test table: the `git+` goes, and so
      do a `.git` ending and a fragment. */
  lemma GitPlusVectors()
    ensures GetRepositoryUrl("git+https://" + "github" + ".com/" + "ghuser/package-name") == "https://" + "github" + ".com/" + "ghuser/package-name"
    ensures GetRepositoryUrl("git+https://" + "github" + ".com/" + "ghuser/package-name" + ".git") == "https://" + "github" + ".com/" + "ghuser/package-name"
    ensures GetRepositoryUrl("git+https://" + "github" + ".com/" + "ghuser/package-name" + ".git" + "#main") == "https://" + "github" + ".com/" + "ghuser/package-name"
  {
    GhuserParts();
    UrlOfForm("git+https://" + "github" + ".com/" + "ghuser/package-name", "git+", "https://", "github", ".com/", "ghuser/package-name", "", "");
    UrlOfForm("git+https://" + "github" + ".com/" + "ghuser/package-name" + ".git", "git+", "https://", "github", ".com/", "ghuser/package-name", ".git", "");
    UrlOfForm("git+https://" + "github" + ".com/" + "ghuser/package-name" + ".git" + "#main", "git+", "https://", "github", ".com/", "ghuser/package-name", ".git", "#main");
  }

  /** The `git@github.com:` rows of the test table: the `git@` goes, the
      `.com:` becomes `.com/`, and a `.git` ending and a fragment go. */
  lemma GitAtVectors()
    ensures GetRepositoryUrl("git@" + "github" + ".com:" + "ghuser/package-name") == "https://" + "github" + ".com/" + "ghuser/package-name"
    ensures GetRepositoryUrl("git@" + "github" + ".com:" + "ghuser/package-name" + ".git") == "https://" + "github" + ".com/" + "ghuser/package-name"
    ensures GetRepositoryUrl("git@" + "github" + ".com:" + "ghuser/package-name" + ".git" + "#main") == "https://" + "github" + ".com/" + "ghuser/package-name"
  {
    GhuserParts();
    UrlOfForm("git@" + "github" + ".com:" + "ghuser/package-name", "git@", "", "github", ".com:", "ghuser/package-name", "", "");
    UrlOfForm("git@" + "github" + ".com:" + "ghuser/package-name" + ".git", "git@", "", "github", ".com:", "ghuser/package-name", ".git", "");
    UrlOfForm("git@" + "github" + ".com:" + "ghuser/package-name" + ".git" + "#main", "git@", "", "github", ".com:", "ghuser/package-name", ".git", "#main");
  }

  /** The `ssh://git@` rows of the test table: the scheme goes, and so do a
      `.git` ending and a fragment. */
  lemma SshVectors()
    ensures GetRepositoryUrl("ssh://git@" + "github" + ".com/" + "mongodb/node-mongodb-native") == "https://" + "github" + ".com/" + "mongodb/node-mongodb-native"
    ensures GetRepositoryUrl("ssh://git@" + "github" + ".com/" + "mongodb/node-mongodb-native" + ".git") == "https://" + "github" + ".com/" + "mongodb/node-mongodb-native"
    ensures GetRepositoryUrl("ssh://git@" + "github" + ".com/" + "mongodb/node-mongodb-native" + ".git" + "#main") == "https://" + "github" + ".com/" + "mongodb/node-mongodb-native"
  {
    MongodbParts();
    UrlOfForm("ssh://git@" + "github" + ".com/" + "mongodb/node-mongodb-native", "", "ssh://git@", "github", ".com/", "mongodb/node-mongodb-native", "", "");
    UrlOfForm("ssh://git@" + "github" + ".com/" + "mongodb/node-mongodb-native" + ".git", "", "ssh://git@", "github", ".com/", "mongodb/node-mongodb-native", ".git", "");
    UrlOfForm("ssh://git@" + "github" + ".com/" + "mongodb/node-mongodb-native" + ".git" + "#main", "", "ssh://git@", "github", ".com/", "mongodb/node-mongodb-native", ".git", "#main");
  }

  /** `https://github.com/ghuser/package-name` names the owner `ghuser` and
      the project `package-name`. */
  lemma MetadataVector()
    ensures '/' in "https://github.com" + "/" + "ghuser" + "/" + "package-name"
    ensures GetRepositoryUrlMetadata("https://github.com" + "/" + "ghuser" + "/" + "package-name")
      == UrlMetadata("ghuser", "package-name")
  {
    MetadataOfParts("https://github.com" + "/" + "ghuser" + "/" + "package-name", "https://github.com", "ghuser", "package-name");
  }
}
