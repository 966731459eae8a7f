/** The job record both site adapters produce, and its view as a Python dict. */
module Jobs {

  /** One scraped listing: the keys `job_id`, `title`, `company`, `location`, `link`. */
  datatype Job = Job(jobId: string, title: string, company: string, location: string, link: string)

  /** The dict an adapter appends for `j`. */
  function AsDict(j: Job): map<string, string> {
    map["job_id" := j.jobId, "title" := j.title, "company" := j.company,
        "location" := j.location, "link" := j.link]
  }
}
