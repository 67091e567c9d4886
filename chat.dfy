/**
 * What a command sends back to the channel: a plain text message or a rich embed.
 * `Embed` is the mutable embed object the handlers fill in step by step;
 * `Outcome` is the value that is finally sent.
 */
module Chat {
  import opened Wrappers

  /** One field of an embed, with its display name and value. */
  datatype Field = Field(name: string, value: string)

  /** The content of an embed: title, description, ordered fields and optional footer. */
  datatype EmbedContent = EmbedContent(title: string, description: string, fields: seq<Field>, footer: Option<string>)

  datatype Outcome = Text(message: string) | Rich(embed: EmbedContent)

  /** A rich message under construction. */
  class Embed {
    var title: string
    var description: string
    var fields: seq<Field>
    var footer: Option<string>

    function Content(): EmbedContent
      reads this
    {
      EmbedContent(title, description, fields, footer)
    }

    /** A new embed has its title and description, no fields and no footer. */
    constructor (title: string, description: string)
      ensures Content() == EmbedContent(title, description, [], None)
    {
      this.title := title;
      this.description := description;
      this.fields := [];
      this.footer := None;
    }

    /** Appends one field after those already there; the rest is unchanged. */
    method AddField(name: string, value: string)
      modifies this
      ensures Content() == old(Content()).(fields := old(fields) + [Field(name, value)])
    {
      fields := fields + [Field(name, value)];
    }

    /** Sets the footer text; the rest is unchanged. */
    method SetFooter(text: string)
      modifies this
      ensures Content() == old(Content()).(footer := Some(text))
    {
      footer := Some(text);
    }
  }
}
