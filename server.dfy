/** The dataset server's four `save_*` tools. Each one is bound to its own
    dataset file and hands its batch to `save_dataset`. */
module DatasetServer {
  import opened Dataset

  /** The four dataset files, one per variety of SMS text. A file that did
      not exist when the server started holds the empty text, as
      `ensure_files` creates it empty. */
  class Server {
    const banglaSms: LineStore
    const englishSms: LineStore
    const banglishSms: LineStore
    const codeMixSms: LineStore

    /** The four tools write to four different files. */
    predicate Valid()
      reads this
    {
      && banglaSms != englishSms && banglaSms != banglishSms && banglaSms != codeMixSms
      && englishSms != banglishSms && englishSms != codeMixSms
      && banglishSms != codeMixSms
    }

    constructor (bangla: string, english: string, banglish: string, codeMixed: string)
      ensures Valid()
      ensures fresh(banglaSms) && fresh(englishSms) && fresh(banglishSms) && fresh(codeMixSms)
      ensures banglaSms.content == bangla && englishSms.content == english
      ensures banglishSms.content == banglish && codeMixSms.content == codeMixed
    {
      banglaSms := new LineStore(bangla);
      englishSms := new LineStore(english);
      banglishSms := new LineStore(banglish);
      codeMixSms := new LineStore(codeMixed);
    }

    /** `save_bangla_dataset`: saves into the Bangla file only. Like the
        other three tools it returns nothing: it drops the message
        `save_dataset` returns. */
    method SaveBanglaDataset(messages: string)
      requires Valid()
      modifies banglaSms
      ensures banglaSms.content == Stored(old(banglaSms.content), messages)
      ensures unchanged(englishSms, banglishSms, codeMixSms)
    {
      var _ := banglaSms.SaveDataset(messages);
    }

    /** `save_english_dataset`: saves into the English file only. */
    method SaveEnglishDataset(messages: string)
      requires Valid()
      modifies englishSms
      ensures englishSms.content == Stored(old(englishSms.content), messages)
      ensures unchanged(banglaSms, banglishSms, codeMixSms)
    {
      var _ := englishSms.SaveDataset(messages);
    }

    /** `save_banglish_sms`: saves into the Banglish file only. */
    method SaveBanglishSms(messages: string)
      requires Valid()
      modifies banglishSms
      ensures banglishSms.content == Stored(old(banglishSms.content), messages)
      ensures unchanged(banglaSms, englishSms, codeMixSms)
    {
      var _ := banglishSms.SaveDataset(messages);
    }

    /** `save_code_mixed_dataset`: saves into the code-mixed file only. */
    method SaveCodeMixedDataset(messages: string)
      requires Valid()
      modifies codeMixSms
      ensures codeMixSms.content == Stored(old(codeMixSms.content), messages)
      ensures unchanged(banglaSms, englishSms, banglishSms)
    {
      var _ := codeMixSms.SaveDataset(messages);
    }
  }
}
