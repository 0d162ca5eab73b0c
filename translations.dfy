/** secretary/translations.py: the phrase table and its lookup with two
    fallbacks. */
module Translations {
  import opened Results

  /** The shipped `translations` table: phrase -> language -> text. */
  const Table: map<string, map<string, string>> := map[
    "helptext" := map[
      "en" := "Hi, I'm here to help you manage your bots and create complex rooms settings for you.",
      "de" := "Hallo, ich bin hier, um deine Bots zu verwalten und komplexe Raum-Einstellungen für dich zu erstellen."
    ],
    "generic_error" := map[
      "en" := "Sorry, I tried, but I encountered an error. Please check the logs.",
      "de" := "Entschuldigung, ich hab's versucht, aber es ist etwas schief gelaufen. Bitte überprüfe die Logs."
    ]
  ]

  /** `echo(phrase, lang)` over a table: an unknown phrase is reported, an
      unknown language falls back to English, which raises KeyError when the
      phrase has no English text. */
  function EchoIn(table: map<string, map<string, string>>, phrase: string, lang: string): (r: Result<string>)
    ensures phrase !in table ==> r == Ok("Phrase not found: " + phrase)
    ensures phrase in table && lang in table[phrase] ==> r == Ok(table[phrase][lang])
    ensures phrase in table && lang !in table[phrase] && "en" in table[phrase] ==> r == Ok(table[phrase]["en"])
    ensures r.Err? <==> phrase in table && lang !in table[phrase] && "en" !in table[phrase]
  {
    if phrase !in table then Ok("Phrase not found: " + phrase)
    else if lang !in table[phrase] then
      (if "en" in table[phrase] then Ok(table[phrase]["en"]) else Err(KeyError("en")))
    else Ok(table[phrase][lang])
  }

  /** `echo` over the shipped table. */
  function Echo(phrase: string, lang: string): Result<string> {
    EchoIn(Table, phrase, lang)
  }

  /** Every phrase of the shipped table has an English text, so `echo`
      never raises. */
  lemma EchoNeverFails(phrase: string, lang: string)
    ensures Echo(phrase, lang).Ok?
  {
    assert forall p :: p in Table ==> "en" in Table[p];
  }

  /** Three calls on the shipped table, one per branch: a known phrase in a
      language the table lacks falls back to English, a known phrase in a
      listed language comes out in that language, and an unknown phrase is
      reported as not found. */
  lemma EchoExamples()
    ensures Echo("helptext", "fr") == Ok(Table["helptext"]["en"])
    ensures Echo("generic_error", "de") == Ok(Table["generic_error"]["de"])
    ensures Echo("bye", "de") == Ok("Phrase not found: bye")
  {
    assert "bye" != "helptext" && "bye" != "generic_error" by {
      assert |"bye"| == 3;
    }
    assert "bye" !in Table;
    assert "Phrase not found: " + "bye" == "Phrase not found: bye";
  }
}
